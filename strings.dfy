/**
 * The few Python string operations the image and video scripts rely on:
 * slicing with negative and out-of-range indices, `int()` of a run of
 * digits, `str()` of a natural number, `str.replace` of one character and
 * `str.split` on one character.
 */
module Strings {
  import opened Wrappers

  // ---------------------------------------------------------------------------
  // Slicing: s[i:j] with Python's index normalisation
  // ---------------------------------------------------------------------------

  /** Python's treatment of a slice bound: negative counts from the end, and the result is clamped to 0..n. */
  function PyIndex(i: int, n: nat): (k: nat)
    ensures k <= n
    ensures 0 <= i <= n ==> k == i
    ensures -(n as int) <= i < 0 ==> k == n + i
  {
    if i < 0 then (if n + i < 0 then 0 else n + i)
    else if i > n then n
    else i
  }

  /** `s[i:j]`; never raises, an inverted range gives the empty string. */
  function PySlice<T>(s: seq<T>, i: int, j: int): (r: seq<T>)
    ensures |r| <= |s|
    ensures 0 <= i <= j <= |s| ==> r == s[i..j]
    ensures 0 <= j <= i ==> r == []
  {
    var lo, hi := PyIndex(i, |s|), PyIndex(j, |s|);
    if lo <= hi then s[lo..hi] else []
  }

  /** A slice taken with bounds counted from the end of a long enough string. */
  lemma {:induction false} PySliceFromEnd<T>(s: seq<T>, a: nat, b: nat)
    requires b <= a <= |s|
    ensures PySlice(s, -(a as int), -(b as int)) == (if b == 0 then [] else s[|s| - a..|s| - b])
    ensures PySlice(s, 0, -(a as int)) == (if a == 0 then [] else s[..|s| - a])
  {
  }

  // ---------------------------------------------------------------------------
  // Decimal digits: int() and str() of natural numbers
  // ---------------------------------------------------------------------------

  predicate IsDigit(c: char) { '0' <= c <= '9' }

  predicate AllDigits(s: string) { forall i :: 0 <= i < |s| ==> IsDigit(s[i]) }

  function DigitValue(c: char): (d: nat)
    requires IsDigit(c)
    ensures d < 10
  {
    (c as int - '0' as int) as nat
  }

  function DigitChar(d: nat): (c: char)
    requires d < 10
    ensures IsDigit(c) && DigitValue(c) == d
  {
    ('0' as int + d) as char
  }

  /** The number a string of decimal digits denotes, read most significant digit first. */
  function DigitsValue(s: string): nat
    requires AllDigits(s)
    decreases |s|
  {
    if |s| == 0 then 0
    else DigitsValue(s[..|s| - 1]) * 10 + DigitValue(s[|s| - 1])
  }

  /**
   * Python's `int(s)` on the strings the scripts pass it: a non-empty run of
   * ASCII digits gives its value (leading zeros allowed), anything else is
   * the ValueError, here `None`.
   */
  function ParseNat(s: string): (r: Option<nat>)
    ensures r.Some? <==> |s| > 0 && AllDigits(s)
  {
    if |s| > 0 && AllDigits(s) then Some(DigitsValue(s)) else None
  }

  /** Python's `str(n)` for a natural number: decimal, no padding, no leading zero. */
  function NatToString(n: nat): (s: string)
    ensures |s| > 0 && AllDigits(s)
    ensures |s| == 1 <==> n < 10
    ensures s[0] == '0' <==> n == 0
    decreases n
  {
    if n < 10 then [DigitChar(n)] else NatToString(n / 10) + [DigitChar(n % 10)]
  }

  /** Appending a digit multiplies the value by ten and adds the digit. */
  lemma DigitsValueSnoc(s: string, c: char)
    requires AllDigits(s) && IsDigit(c)
    ensures AllDigits(s + [c]) && DigitsValue(s + [c]) == DigitsValue(s) * 10 + DigitValue(c)
  {
    assert (s + [c])[..|s|] == s;
  }

  /** `int(str(n)) == n`. */
  lemma {:induction false} ParseNatToString(n: nat)
    ensures ParseNat(NatToString(n)) == Some(n)
    decreases n
  {
    if n < 10 {
      DigitsValueSnoc([], DigitChar(n));
      assert NatToString(n) == [] + [DigitChar(n)];
    } else {
      var prefix := NatToString(n / 10);
      ParseNatToString(n / 10);
      assert DigitsValue(prefix) == n / 10;
      DigitsValueSnoc(prefix, DigitChar(n % 10));
      assert NatToString(n) == prefix + [DigitChar(n % 10)];
    }
  }

  /** Two digits denote a value below 100, and the first digit counts ten times. */
  lemma TwoDigitsValue(s: string)
    requires |s| == 2 && AllDigits(s)
    ensures DigitsValue(s) == 10 * DigitValue(s[0]) + DigitValue(s[1]) < 100
  {
    assert s[..1][..0] == [];
    assert DigitsValue(s[..1]) == DigitValue(s[0]);
    assert DigitsValue(s) == DigitsValue(s[..1]) * 10 + DigitValue(s[1]);
  }

  // ---------------------------------------------------------------------------
  // str.replace with one-character arguments
  // ---------------------------------------------------------------------------

  /** `s.replace(c, "")`: every occurrence of `c` deleted, everything else kept in order. */
  function Remove(s: string, c: char): (r: string)
    ensures c !in r
    ensures |r| <= |s|
    decreases |s|
  {
    if |s| == 0 then []
    else (if s[0] == c then [] else [s[0]]) + Remove(s[1..], c)
  }

  /** Exactly the characters other than `c` survive `Remove`. */
  lemma {:induction false} RemoveMembers(s: string, c: char, x: char)
    ensures x in Remove(s, c) <==> x in s && x != c
    decreases |s|
  {
    if |s| > 0 {
      RemoveMembers(s[1..], c, x);
      assert x in s <==> x == s[0] || x in s[1..];
    }
  }

  lemma {:induction false} RemoveConcat(a: string, b: string, c: char)
    ensures Remove(a + b, c) == Remove(a, c) + Remove(b, c)
    decreases |a|
  {
    if |a| > 0 {
      assert (a + b)[1..] == a[1..] + b;
      RemoveConcat(a[1..], b, c);
    } else {
      assert a + b == b;
    }
  }

  lemma {:induction false} RemoveAbsent(s: string, c: char)
    requires c !in s
    ensures Remove(s, c) == s
    decreases |s|
  {
    if |s| > 0 {
      assert s[0] in s;
      assert forall x :: x in s[1..] ==> x in s;
      RemoveAbsent(s[1..], c);
      assert s == [s[0]] + s[1..];
    }
  }

  /** `s.replace(c, d)`: every `c` becomes `d`, the length and every other character are kept. */
  function Replace(s: string, c: char, d: char): (r: string)
    ensures |r| == |s|
    ensures c != d ==> c !in r
    ensures forall i :: 0 <= i < |s| ==> r[i] == (if s[i] == c then d else s[i])
  {
    seq(|s|, i requires 0 <= i < |s| => if s[i] == c then d else s[i])
  }

  lemma ReplaceConcat(a: string, b: string, c: char, d: char)
    ensures Replace(a + b, c, d) == Replace(a, c, d) + Replace(b, c, d)
  {
    var l, r := Replace(a + b, c, d), Replace(a, c, d) + Replace(b, c, d);
    assert |l| == |r|;
    forall i | 0 <= i < |l| ensures l[i] == r[i] {
      if i < |a| { assert (a + b)[i] == a[i]; } else { assert (a + b)[i] == b[i - |a|]; }
    }
  }

  lemma ReplaceAbsent(s: string, c: char, d: char)
    requires c !in s
    ensures Replace(s, c, d) == s
  {
    var r := Replace(s, c, d);
    forall i | 0 <= i < |s| ensures r[i] == s[i] {
      assert s[i] in s;
    }
  }

  // ---------------------------------------------------------------------------
  // str.split with a one-character separator
  // ---------------------------------------------------------------------------

  /**
   * `s.split(c)`: the maximal runs between separators, empty runs included,
   * so there is always at least one field and no field contains `c`.
   */
  function Split(s: string, c: char): (fields: seq<string>)
    ensures |fields| >= 1
    ensures forall k :: 0 <= k < |fields| ==> c !in fields[k]
    ensures fields[0] <= s
    decreases |s|
  {
    if |s| == 0 then [[]]
    else
      var rest := Split(s[1..], c);
      if s[0] == c then [[]] + rest
      else [[s[0]] + rest[0]] + rest[1..]
  }

  /** `c.join(fields)`, the inverse of `Split`. */
  function Join(fields: seq<string>, c: char): string
    requires |fields| >= 1
    decreases |fields|
  {
    if |fields| == 1 then fields[0] else fields[0] + [c] + Join(fields[1..], c)
  }

  /** Joining the fields again gives back the split string. */
  lemma {:induction false} JoinSplit(s: string, c: char)
    ensures Join(Split(s, c), c) == s
    decreases |s|
  {
    if |s| > 0 {
      var rest := Split(s[1..], c);
      JoinSplit(s[1..], c);
      if s[0] == c {
        assert Split(s, c) == [[]] + rest;
        assert ([[]] + rest)[1..] == rest;
      } else {
        var fs := [[s[0]] + rest[0]] + rest[1..];
        assert Split(s, c) == fs;
        if |rest| == 1 {
          assert Join(fs, c) == [s[0]] + rest[0];
        } else {
          assert fs[1..] == rest[1..];
          assert Join(rest, c) == rest[0] + [c] + Join(rest[1..], c);
        }
      }
    }
  }

  /** Splitting a string that starts with a separator-free field and a separator. */
  lemma {:induction false} SplitCons(a: string, c: char, b: string)
    requires c !in a
    ensures Split(a + [c] + b, c) == [a] + Split(b, c)
    decreases |a|
  {
    if |a| == 0 {
      assert a + [c] + b == [c] + b;
      assert ([c] + b)[1..] == b;
    } else {
      assert a[0] in a;
      assert forall x :: x in a[1..] ==> x in a;
      SplitCons(a[1..], c, b);
      assert (a + [c] + b)[1..] == a[1..] + [c] + b;
      assert [a[0]] + a[1..] == a;
    }
  }

  /** A string without the separator splits into itself alone. */
  lemma {:induction false} SplitAbsent(s: string, c: char)
    requires c !in s
    ensures Split(s, c) == [s]
    decreases |s|
  {
    if |s| > 0 {
      assert s[0] in s;
      assert forall x :: x in s[1..] ==> x in s;
      SplitAbsent(s[1..], c);
      assert [s[0]] + s[1..] == s;
    }
  }

  /** Splitting a join of separator-free fields gives the fields back. */
  lemma {:induction false} SplitJoin(fields: seq<string>, c: char)
    requires |fields| >= 1
    requires forall k :: 0 <= k < |fields| ==> c !in fields[k]
    ensures Split(Join(fields, c), c) == fields
    decreases |fields|
  {
    if |fields| == 1 {
      SplitAbsent(fields[0], c);
    } else {
      SplitJoin(fields[1..], c);
      SplitCons(fields[0], c, Join(fields[1..], c));
      assert [fields[0]] + fields[1..] == fields;
    }
  }
}

/**
 * One-dimensional piecewise-linear interpolation with the semantics of
 * NumPy's `np.interp(z, xp, fp)`: exact at the sample points, linear
 * between neighbouring ones, and clamped to the first and last sample
 * value outside the sampled range.
 */
module Interpolation {

  predicate StrictlyIncreasing(s: seq<real>) {
    forall i, j :: 0 <= i < j < |s| ==> s[i] < s[j]
  }

  predicate NonDecreasing(s: seq<real>) {
    forall i, j :: 0 <= i < j < |s| ==> s[i] <= s[j]
  }

  /** The value on the chord from (x0, f0) to (x1, f1) at `z`. */
  function Chord(z: real, x0: real, x1: real, f0: real, f1: real): real
    requires x0 < x1
  {
    f0 + (z - x0) * (f1 - f0) / (x1 - x0)
  }

  /**
   * `np.interp(z, xp, fp)`. Sample points are scanned from the left; the
   * segment used is the one with `xp[i] < z < xp[i + 1]`, a sample point
   * itself gives its own value, and a `z` beyond either end the nearest
   * end value. NumPy raises on an empty or mismatched table, which the
   * precondition excludes.
   */
  function Interp(z: real, xp: seq<real>, fp: seq<real>): real
    requires |xp| == |fp| >= 1
    decreases |xp|
  {
    if z <= xp[0] || |xp| == 1 then fp[0]
    else if z < xp[1] then Chord(z, xp[0], xp[1], fp[0], fp[1])
    else Interp(z, xp[1..], fp[1..])
  }

  // ---------------------------------------------------------------------------
  // Arithmetic on one chord
  // ---------------------------------------------------------------------------

  /** On a chord with nondecreasing ends, the value lies between the ends (strictly inside if they differ). */
  lemma ChordBetween(z: real, x0: real, x1: real, f0: real, f1: real)
    requires x0 <= z <= x1 && x0 < x1 && f0 <= f1
    ensures f0 <= Chord(z, x0, x1, f0, f1) <= f1
    ensures f0 < f1 && x0 < z ==> f0 < Chord(z, x0, x1, f0, f1)
    ensures f0 < f1 && z < x1 ==> Chord(z, x0, x1, f0, f1) < f1
    ensures z == x1 ==> Chord(z, x0, x1, f0, f1) == f1
  {
    var d, s := x1 - x0, f1 - f0;
    var t := (z - x0) / d;
    assert 0.0 <= t <= 1.0;
    assert (z - x0) * s / d == t * s;
    assert 0.0 <= t * s <= s;
    if f0 < f1 && x0 < z { assert 0.0 < t * s; }
    if f0 < f1 && z < x1 { assert t < 1.0; assert t * s < s; }
  }

  /** A chord with nondecreasing ends is nondecreasing (increasing if the ends differ). */
  lemma ChordMonotone(z1: real, z2: real, x0: real, x1: real, f0: real, f1: real)
    requires z1 <= z2 && x0 < x1 && f0 <= f1
    ensures Chord(z1, x0, x1, f0, f1) <= Chord(z2, x0, x1, f0, f1)
    ensures z1 < z2 && f0 < f1 ==> Chord(z1, x0, x1, f0, f1) < Chord(z2, x0, x1, f0, f1)
  {
    var d, s := x1 - x0, f1 - f0;
    var k := s / d;
    assert (z1 - x0) * s / d == (z1 - x0) * k;
    assert (z2 - x0) * s / d == (z2 - x0) * k;
    assert 0.0 <= k;
    assert (z2 - x0) * k - (z1 - x0) * k == (z2 - z1) * k;
    if z1 < z2 && f0 < f1 { assert 0.0 < k; assert 0.0 < (z2 - z1) * k; }
  }

  lemma TailOrdered(s: seq<real>)
    requires |s| >= 1
    ensures StrictlyIncreasing(s) ==> StrictlyIncreasing(s[1..])
    ensures NonDecreasing(s) ==> NonDecreasing(s[1..])
  {
    if StrictlyIncreasing(s) {
      forall i, j | 0 <= i < j < |s| - 1 ensures s[1..][i] < s[1..][j] { assert s[i + 1] < s[j + 1]; }
    }
    if NonDecreasing(s) {
      forall i, j | 0 <= i < j < |s| - 1 ensures s[1..][i] <= s[1..][j] { assert s[i + 1] <= s[j + 1]; }
    }
  }

  // ---------------------------------------------------------------------------
  // Properties of Interp
  // ---------------------------------------------------------------------------

  /** At a sample point the interpolated value is exactly that sample's value. */
  lemma {:induction false} InterpAtNode(xp: seq<real>, fp: seq<real>, k: nat)
    requires |xp| == |fp| && k < |xp|
    requires StrictlyIncreasing(xp)
    ensures Interp(xp[k], xp, fp) == fp[k]
    decreases k
  {
    if k > 0 {
      assert xp[0] < xp[k];
      assert xp[1] <= xp[k];
      TailOrdered(xp);
      InterpAtNode(xp[1..], fp[1..], k - 1);
    }
  }

  /** Outside the sampled range the value is clamped to the nearest end value. */
  lemma {:induction false} InterpClamped(z: real, xp: seq<real>, fp: seq<real>)
    requires |xp| == |fp| >= 1
    requires StrictlyIncreasing(xp)
    ensures z <= xp[0] ==> Interp(z, xp, fp) == fp[0]
    ensures z >= xp[|xp| - 1] ==> Interp(z, xp, fp) == fp[|fp| - 1]
    decreases |xp|
  {
    if z >= xp[|xp| - 1] && |xp| > 1 {
      assert xp[1] <= xp[|xp| - 1];
      if z > xp[0] {
        TailOrdered(xp);
        InterpClamped(z, xp[1..], fp[1..]);
      }
    }
  }

  /** With nondecreasing sample values, the result never leaves [fp[0], fp[last]]. */
  lemma {:induction false} InterpBounds(z: real, xp: seq<real>, fp: seq<real>)
    requires |xp| == |fp| >= 1
    requires StrictlyIncreasing(xp) && NonDecreasing(fp)
    ensures fp[0] <= Interp(z, xp, fp) <= fp[|fp| - 1]
    decreases |xp|
  {
    if !(z <= xp[0] || |xp| == 1) {
      assert fp[0] <= fp[1] <= fp[|fp| - 1];
      if z < xp[1] {
        ChordBetween(z, xp[0], xp[1], fp[0], fp[1]);
      } else {
        TailOrdered(xp);
        TailOrdered(fp);
        InterpBounds(z, xp[1..], fp[1..]);
      }
    } else {
      assert fp[0] <= fp[|fp| - 1];
    }
  }

  /** With nondecreasing sample values, interpolation is nondecreasing. */
  lemma {:induction false} InterpMonotone(z1: real, z2: real, xp: seq<real>, fp: seq<real>)
    requires |xp| == |fp| >= 1 && z1 <= z2
    requires StrictlyIncreasing(xp) && NonDecreasing(fp)
    ensures Interp(z1, xp, fp) <= Interp(z2, xp, fp)
    decreases |xp|
  {
    if z1 <= xp[0] || |xp| == 1 {
      InterpBounds(z2, xp, fp);
    } else {
      TailOrdered(xp);
      TailOrdered(fp);
      if z1 < xp[1] {
        if z2 < xp[1] {
          ChordMonotone(z1, z2, xp[0], xp[1], fp[0], fp[1]);
        } else {
          ChordBetween(z1, xp[0], xp[1], fp[0], fp[1]);
          InterpBounds(z2, xp[1..], fp[1..]);
        }
      } else {
        InterpMonotone(z1, z2, xp[1..], fp[1..]);
      }
    }
  }

  /** With strictly increasing sample values, interpolation is strictly increasing inside the sampled range. */
  lemma {:induction false} InterpStrictlyMonotone(z1: real, z2: real, xp: seq<real>, fp: seq<real>)
    requires |xp| == |fp| >= 1 && z1 < z2
    requires xp[0] <= z1 && z2 <= xp[|xp| - 1]
    requires StrictlyIncreasing(xp) && StrictlyIncreasing(fp)
    ensures Interp(z1, xp, fp) < Interp(z2, xp, fp)
    decreases |xp|
  {
    assert |xp| > 1;
    assert NonDecreasing(fp);
    TailOrdered(xp);
    TailOrdered(fp);
    if z1 < xp[1] {
      if z2 < xp[1] {
        if z1 == xp[0] {
          ChordBetween(z2, xp[0], xp[1], fp[0], fp[1]);
        } else {
          ChordMonotone(z1, z2, xp[0], xp[1], fp[0], fp[1]);
        }
      } else {
        if z1 == xp[0] {
          assert Interp(z1, xp, fp) == fp[0];
        } else {
          ChordBetween(z1, xp[0], xp[1], fp[0], fp[1]);
        }
        InterpBounds(z2, xp[1..], fp[1..]);
        assert Interp(z2, xp, fp) >= fp[1];
      }
    } else {
      InterpStrictlyMonotone(z1, z2, xp[1..], fp[1..]);
    }
  }

  /** Between two neighbouring sample points the value is the chord through them. */
  lemma {:induction false} InterpLinear(z: real, xp: seq<real>, fp: seq<real>, k: nat)
    requires |xp| == |fp| && k + 1 < |xp|
    requires StrictlyIncreasing(xp)
    requires xp[k] <= z <= xp[k + 1]
    ensures Interp(z, xp, fp) == Chord(z, xp[k], xp[k + 1], fp[k], fp[k + 1])
    decreases k
  {
    if k == 0 {
      if z == xp[0] {
        ChordStart(xp[0], xp[1], fp[0], fp[1]);
      } else if z == xp[1] {
        InterpAtNode(xp, fp, 1);
        ChordEnd(xp[0], xp[1], fp[0], fp[1]);
      } else {
        assert xp[0] < z < xp[1];
      }
    } else {
      assert xp[0] < xp[1] <= xp[k];
      TailOrdered(xp);
      InterpLinear(z, xp[1..], fp[1..], k - 1);
    }
  }

  lemma ChordStart(x0: real, x1: real, f0: real, f1: real)
    requires x0 < x1
    ensures Chord(x0, x0, x1, f0, f1) == f0
  {
    assert (x0 - x0) * (f1 - f0) == 0.0;
  }

  lemma ChordEnd(x0: real, x1: real, f0: real, f1: real)
    requires x0 < x1
    ensures Chord(x1, x0, x1, f0, f1) == f1
  {
    assert (x1 - x0) * (f1 - f0) / (x1 - x0) == f1 - f0;
  }
}

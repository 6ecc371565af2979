/**
 * The string handling of `create_image`: rounding the requested instant up
 * to the next even minute, the all-sky image's file name and URL, which
 * telemetry cells place the telescope marker, and the clock and date
 * strings drawn on or named after the image.
 *
 * Instants are handled as astropy prints them in ISO format,
 * "YYYY-MM-DD HH:MM:SS.sss". Parsing and printing by astropy, the HTTP
 * requests and the plotting are not modelled.
 */
module Image {
  import opened Wrappers
  import opened Strings
  import opened Coordinates

  /** Where the cropped all-sky images are served from. */
  const BaseUrl: string := "http://varuna.kpno.noirlab.edu/allsky-all/images/cropped/"

  /** Seconds subtracted from UTC to get the local clock shown on the image. */
  const LocalOffsetSeconds: int := 7 * 3600

  // ---------------------------------------------------------------------------
  // The next available image: minutes rounded up to an even value
  // ---------------------------------------------------------------------------

  /** `(m + 1) // 2 * 2`: the smallest even number that is at least `m`. */
  function RoundUpEven(m: nat): (r: nat)
    ensures r % 2 == 0
    ensures m <= r <= m + 1
    ensures m % 2 == 0 <==> r == m
  {
    (m + 1) / 2 * 2
  }

  /** No even number at or above `m` is smaller than RoundUpEven(m); 59 becomes 60. */
  lemma {:induction false} RoundUpEvenLeast(m: nat, e: nat)
    requires e % 2 == 0 && m <= e
    ensures RoundUpEven(m) <= e
    ensures RoundUpEven(59) == 60
  {
  }

  /**
   * Lines 29-33 of `create_image`: read the minutes from characters
   * [-9:-7], round them up to even, and rebuild the string from everything
   * before them, `str(minutes)` unpadded, and ":05.000". `int()` failing
   * on the two characters is the `None` case.
   */
  function NextImageTime(iso: string): (r: Option<string>)
    ensures r.Some? <==> ParseNat(PySlice(iso, -9, -7)).Some?
    ensures r.Some? ==>
              var stem := PySlice(iso, 0, -9);
              |r.value| > |stem| + 7 && r.value[..|stem|] == stem && r.value[|r.value| - 7..] == ":05.000"
  {
    match ParseNat(PySlice(iso, -9, -7))
    case None => None
    case Some(m) => Some(PySlice(iso, 0, -9) + NatToString(RoundUpEven(m)) + ":05.000")
  }

  // ---------------------------------------------------------------------------
  // ISO strings
  // ---------------------------------------------------------------------------

  /** "YYYY-MM-DD". */
  function DatePart(year: string, month: string, day: string): string {
    year + "-" + month + "-" + day
  }

  /** "HH:MM:SS". */
  function ClockPart(hour: string, minute: string, second: string): string {
    hour + ":" + minute + ":" + second
  }

  /** "YYYY-MM-DD HH:MM:SS.sss", astropy's `iso` format. */
  function Iso(year: string, month: string, day: string, hour: string, minute: string, second: string, frac: string): string {
    DatePart(year, month, day) + " " + ClockPart(hour, minute, second) + "." + frac
  }

  /** The fields of an ISO string: digits only, with two-digit clock fields and three fraction digits. */
  predicate IsoFields(year: string, month: string, day: string, hour: string, minute: string, second: string, frac: string) {
    && AllDigits(year) && AllDigits(month) && AllDigits(day)
    && AllDigits(hour) && AllDigits(minute) && AllDigits(second) && AllDigits(frac)
    && |hour| == 2 && |minute| == 2 && |second| == 2 && |frac| == 3
  }

  lemma DigitsAvoid(s: string, c: char)
    requires AllDigits(s) && !IsDigit(c)
    ensures c !in s
  {
    assert forall i :: 0 <= i < |s| ==> s[i] != c;
  }

  /** None of the fields of an ISO string holds a separator. */
  lemma FieldsAvoid(year: string, month: string, day: string, hour: string, minute: string, second: string, frac: string, c: char)
    requires IsoFields(year, month, day, hour, minute, second, frac) && !IsDigit(c)
    ensures c !in year && c !in month && c !in day && c !in hour && c !in minute && c !in second && c !in frac
  {
    DigitsAvoid(year, c); DigitsAvoid(month, c); DigitsAvoid(day, c);
    DigitsAvoid(hour, c); DigitsAvoid(minute, c); DigitsAvoid(second, c); DigitsAvoid(frac, c);
  }

  /** Rebuilding an ISO instant keeps the date and hour, puts the rounded minutes unpadded, and sets the seconds to 05.000. */
  lemma NextImageTimeOfIso(year: string, month: string, day: string, hour: string, minute: string, second: string, frac: string)
    requires IsoFields(year, month, day, hour, minute, second, frac)
    ensures NextImageTime(Iso(year, month, day, hour, minute, second, frac))
         == Some(DatePart(year, month, day) + " " + hour + ":" + NatToString(RoundUpEven(DigitsValue(minute))) + ":05.000")
  {
    var iso := Iso(year, month, day, hour, minute, second, frac);
    var stem := DatePart(year, month, day) + " " + hour + ":";
    var tail := minute + ":" + second + "." + frac;
    assert iso == stem + tail;
    assert |tail| == 9;
    PySliceFromEnd(iso, 9, 7);
    assert iso[..|iso| - 9] == stem;
    assert iso[|iso| - 9..|iso| - 7] == tail[..2] == minute;
  }

  // ---------------------------------------------------------------------------
  // File name, URL, date
  // ---------------------------------------------------------------------------

  /** `s.split(c)[0]`: everything before the first `c`. */
  function BeforeFirst(s: string, c: char): (r: string)
    ensures c !in r
  {
    Split(s, c)[0]
  }

  /**
   * `t.replace(":", "").replace("-", "").replace(" ", "_").split(".")[0]`:
   * no ':', '-', ' ' or '.' is left.
   */
  function FileStem(t: string): (stem: string)
    ensures ':' !in stem && '-' !in stem && ' ' !in stem && '.' !in stem
  {
    var v1 := Remove(t, ':');
    var v := Remove(v1, '-');
    RemoveMembers(v1, '-', ':');
    var u := Replace(v, ' ', '_');
    assert forall i :: 0 <= i < |u| ==> u[i] != ':' && u[i] != '-' && u[i] != ' ' by {
      forall i | 0 <= i < |u| ensures u[i] != ':' && u[i] != '-' && u[i] != ' ' {
        if v[i] != ' ' { assert v[i] in v; }
      }
    }
    var stem := BeforeFirst(u, '.');
    assert forall i :: 0 <= i < |stem| ==> stem[i] == u[i];
    stem
  }

  /** The stem followed by ".jpg"; the name has no ':', '-' or ' ', and no '.' before ".jpg". */
  function FileName(t: string): (name: string)
    ensures |name| >= 4 && name[|name| - 4..] == ".jpg"
    ensures ':' !in name && '-' !in name && ' ' !in name
    ensures '.' !in name[..|name| - 4]
  {
    var stem := FileStem(t);
    var name := stem + ".jpg";
    assert name[..|name| - 4] == stem;
    name
  }

  /**
   * `base_url + d.replace("-", "/") + "/" + file_name`, where `d` is the
   * date before the first space: the URL extends `base` and ends in "/"
   * and the file name.
   */
  function ImageUrl(base: string, t: string): (url: string)
    ensures |url| > |base| + |FileName(t)|
    ensures url[..|base|] == base
    ensures url[|url| - |FileName(t)|..] == FileName(t)
    ensures url[|url| - |FileName(t)| - 1] == '/'
  {
    base + Replace(BeforeFirst(t, ' '), '-', '/') + "/" + FileName(t)
  }

  /** `t.split(" ")[0].replace("-", "")`: the date with its dashes removed, as the image and video are named. */
  function DateStamp(t: string): (d: string)
    ensures '-' !in d && ' ' !in d
  {
    RemoveMembers(BeforeFirst(t, ' '), '-', ' ');
    Remove(BeforeFirst(t, ' '), '-')
  }

  /** Removing `c` from a string whose outer parts lack it only affects the middle part. */
  lemma RemoveInside(a: string, x: string, b: string, c: char)
    requires c !in a && c !in b
    ensures Remove(a + x + b, c) == a + Remove(x, c) + b
  {
    RemoveConcat(a + x, b, c);
    RemoveConcat(a, x, c);
    RemoveAbsent(a, c);
    RemoveAbsent(b, c);
  }

  /** Removing the separator from three separated fields concatenates them. */
  lemma RemoveSeparators(p: string, q: string, r: string, c: char)
    requires c !in p && c !in q && c !in r
    ensures Remove(p + [c] + q + [c] + r, c) == p + q + r
  {
    var pq := p + [c] + q;
    var a := pq + [c];
    RemoveConcat(a, r, c);
    RemoveAbsent(r, c);
    RemoveConcat(pq, [c], c);
    assert Remove([c], c) == [];
    assert Remove(a, c) == Remove(pq, c);
    var d := p + [c];
    RemoveConcat(d, q, c);
    RemoveAbsent(q, c);
    RemoveConcat(p, [c], c);
    RemoveAbsent(p, c);
    assert Remove(d, c) == p;
  }

  /** Replacing `c` by `d` in three separated fields that lack `c` only changes the separators. */
  lemma ReplaceSeparators(p: string, q: string, r: string, c: char, d: char)
    requires c !in p && c !in q && c !in r
    ensures Replace(p + [c] + q + [c] + r, c, d) == p + [d] + q + [d] + r
  {
    ReplaceConcat(p + [c] + q + [c], r, c, d);
    ReplaceConcat(p + [c] + q, [c], c, d);
    ReplaceConcat(p + [c], q, c, d);
    ReplaceConcat(p, [c], c, d);
    ReplaceAbsent(p, c, d); ReplaceAbsent(q, c, d); ReplaceAbsent(r, c, d);
  }

  /** An ISO string splits on its one space into the date and the clock with fraction. */
  lemma SplitIsoOnSpace(year: string, month: string, day: string, hour: string, minute: string, second: string, frac: string)
    requires IsoFields(year, month, day, hour, minute, second, frac)
    ensures Split(Iso(year, month, day, hour, minute, second, frac), ' ')
         == [DatePart(year, month, day), ClockPart(hour, minute, second) + "." + frac]
  {
    var date, rest := DatePart(year, month, day), ClockPart(hour, minute, second) + "." + frac;
    FieldsAvoid(year, month, day, hour, minute, second, frac, ' ');
    assert ' ' !in date;
    assert ' ' !in rest;
    assert Iso(year, month, day, hour, minute, second, frac) == date + [' '] + rest;
    SplitCons(date, ' ', rest);
    SplitAbsent(rest, ' ');
  }

  /** The step of FileName that deletes the colons of "D HH:MM:SS.F". */
  lemma RemoveColons(date: string, hour: string, minute: string, second: string, frac: string)
    requires ':' !in date && ':' !in hour && ':' !in minute && ':' !in second && ':' !in frac
    ensures Remove(date + " " + ClockPart(hour, minute, second) + "." + frac, ':')
         == date + " " + (hour + minute + second) + "." + frac
  {
    var clock := ClockPart(hour, minute, second);
    RemoveConcat(date + " " + clock + ".", frac, ':');
    RemoveConcat(date + " " + clock, ".", ':');
    RemoveConcat(date + " ", clock, ':');
    RemoveConcat(date, " ", ':');
    RemoveAbsent(date, ':');
    RemoveAbsent(frac, ':');
    assert Remove(" ", ':') == " ";
    assert Remove(".", ':') == ".";
    RemoveSeparators(hour, minute, second, ':');
  }

  /** The step of FileName that deletes the dashes of "Y-M-D T.F". */
  lemma RemoveDashes(year: string, month: string, day: string, mid: string, frac: string)
    requires '-' !in year && '-' !in month && '-' !in day && '-' !in mid && '-' !in frac
    ensures Remove(DatePart(year, month, day) + " " + mid + "." + frac, '-')
         == (year + month + day) + " " + mid + "." + frac
  {
    var date := DatePart(year, month, day);
    RemoveConcat(date + " " + mid + ".", frac, '-');
    RemoveConcat(date + " " + mid, ".", '-');
    RemoveConcat(date + " ", mid, '-');
    RemoveConcat(date, " ", '-');
    RemoveAbsent(mid, '-');
    RemoveAbsent(frac, '-');
    assert Remove(" ", '-') == " ";
    assert Remove(".", '-') == ".";
    RemoveSeparators(year, month, day, '-');
  }

  /** The step of FileName that turns the one space of "D T.F" into '_'. */
  lemma ReplaceSpace(date: string, mid: string, frac: string)
    requires ' ' !in date && ' ' !in mid && ' ' !in frac
    ensures Replace(date + " " + mid + "." + frac, ' ', '_') == date + "_" + mid + "." + frac
  {
    ReplaceConcat(date + " " + mid + ".", frac, ' ', '_');
    ReplaceConcat(date + " " + mid, ".", ' ', '_');
    ReplaceConcat(date + " ", mid, ' ', '_');
    ReplaceConcat(date, " ", ' ', '_');
    ReplaceAbsent(date, ' ', '_');
    ReplaceAbsent(mid, ' ', '_');
    ReplaceAbsent(frac, ' ', '_');
    assert Replace(" ", ' ', '_') == "_";
    assert Replace(".", ' ', '_') == ".";
  }

  /** "YYYY-MM-DD HH:MM:SS.sss" gives the file stem "YYYYMMDD_HHMMSS". */
  lemma FileStemOfIso(year: string, month: string, day: string, hour: string, minute: string, second: string, frac: string)
    requires IsoFields(year, month, day, hour, minute, second, frac)
    ensures FileStem(Iso(year, month, day, hour, minute, second, frac))
         == (year + month + day) + "_" + (hour + minute + second)
  {
    FieldsAvoid(year, month, day, hour, minute, second, frac, ':');
    FieldsAvoid(year, month, day, hour, minute, second, frac, '-');
    FieldsAvoid(year, month, day, hour, minute, second, frac, ' ');
    FieldsAvoid(year, month, day, hour, minute, second, frac, '.');
    var t := Iso(year, month, day, hour, minute, second, frac);
    var date, ymd, hms := DatePart(year, month, day), year + month + day, hour + minute + second;
    assert '-' !in hms && ' ' !in ymd && ' ' !in hms && '.' !in ymd && '.' !in hms;
    RemoveColons(date, hour, minute, second, frac);
    var v1 := date + " " + hms + "." + frac;
    assert Remove(t, ':') == v1;
    RemoveDashes(year, month, day, hms, frac);
    var v := ymd + " " + hms + "." + frac;
    assert Remove(v1, '-') == v;
    ReplaceSpace(ymd, hms, frac);
    var stem := ymd + "_" + hms;
    assert Replace(v, ' ', '_') == stem + "." + frac;
    assert '.' !in stem;
    SplitCons(stem, '.', frac);
  }

  /** "YYYY-MM-DD HH:MM:SS.sss" gives the file name "YYYYMMDD_HHMMSS.jpg". */
  lemma FileNameOfIso(year: string, month: string, day: string, hour: string, minute: string, second: string, frac: string)
    requires IsoFields(year, month, day, hour, minute, second, frac)
    ensures FileName(Iso(year, month, day, hour, minute, second, frac))
         == (year + month + day) + "_" + (hour + minute + second) + ".jpg"
  {
    FileStemOfIso(year, month, day, hour, minute, second, frac);
  }

  /** "YYYY-MM-DD HH:MM:SS.sss" gives the directory "YYYY/MM/DD". */
  lemma DatePathOfIso(year: string, month: string, day: string, hour: string, minute: string, second: string, frac: string)
    requires IsoFields(year, month, day, hour, minute, second, frac)
    ensures Replace(BeforeFirst(Iso(year, month, day, hour, minute, second, frac), ' '), '-', '/')
         == year + "/" + month + "/" + day
  {
    SplitIsoOnSpace(year, month, day, hour, minute, second, frac);
    FieldsAvoid(year, month, day, hour, minute, second, frac, '-');
    ReplaceSeparators(year, month, day, '-', '/');
  }

  /** "YYYY-MM-DD HH:MM:SS.sss" gives the URL base + "YYYY/MM/DD/" + "YYYYMMDD_HHMMSS.jpg". */
  lemma ImageUrlOfIso(base: string, year: string, month: string, day: string, hour: string, minute: string, second: string, frac: string)
    requires IsoFields(year, month, day, hour, minute, second, frac)
    ensures ImageUrl(base, Iso(year, month, day, hour, minute, second, frac))
         == base + (year + "/" + month + "/" + day) + "/" + ((year + month + day) + "_" + (hour + minute + second) + ".jpg")
  {
    DatePathOfIso(year, month, day, hour, minute, second, frac);
    FileNameOfIso(year, month, day, hour, minute, second, frac);
  }

  /** "YYYY-MM-DD HH:MM:SS.sss" gives the date stamp "YYYYMMDD". */
  lemma DateStampOfIso(year: string, month: string, day: string, hour: string, minute: string, second: string, frac: string)
    requires IsoFields(year, month, day, hour, minute, second, frac)
    ensures DateStamp(Iso(year, month, day, hour, minute, second, frac)) == year + month + day
  {
    SplitIsoOnSpace(year, month, day, hour, minute, second, frac);
    FieldsAvoid(year, month, day, hour, minute, second, frac, '-');
    RemoveSeparators(year, month, day, '-');
  }

  // ---------------------------------------------------------------------------
  // Clock label
  // ---------------------------------------------------------------------------

  /**
   * `s.split(" ")[1][0:5] + " Local"` for a printed instant `s`; indexing
   * the missing second field of a string without a space is the `None`
   * case.
   */
  function ClockText(s: string): (text: Option<string>)
    ensures text.Some? <==> ' ' in s
    ensures text.Some? ==> 6 <= |text.value| <= 11 && text.value[|text.value| - 6..] == " Local"
  {
    var fields := Split(s, ' ');
    SplitFieldCount(s, ' ');
    if |fields| < 2 then None else Some(PySlice(fields[1], 0, 5) + " Local")
  }

  /** A string splits into more than one field exactly when it holds the separator. */
  lemma {:induction false} SplitFieldCount(s: string, c: char)
    ensures |Split(s, c)| >= 2 <==> c in s
    decreases |s|
  {
    if |s| > 0 {
      SplitFieldCount(s[1..], c);
      assert c in s <==> s[0] == c || c in s[1..];
    }
  }

  /** The clock text of an ISO instant is its "HH:MM" followed by " Local". */
  lemma ClockTextOfIso(year: string, month: string, day: string, hour: string, minute: string, second: string, frac: string)
    requires IsoFields(year, month, day, hour, minute, second, frac)
    ensures ClockText(Iso(year, month, day, hour, minute, second, frac)) == Some(hour + ":" + minute + " Local")
  {
    SplitIsoOnSpace(year, month, day, hour, minute, second, frac);
    var rest := ClockPart(hour, minute, second) + "." + frac;
    assert rest[0..5] == hour + ":" + minute;
  }

  /**
   * The clock drawn on the image for instant `t` (UTC seconds): the
   * instant LocalOffsetSeconds earlier, printed by `iso`, cut to its
   * clock text.
   */
  function ClockLabel(t: int, iso: int -> string): (text: Option<string>)
    ensures text.Some? <==> ' ' in iso(t - LocalOffsetSeconds)
    ensures text.Some? ==> 6 <= |text.value| <= 11 && text.value[|text.value| - 6..] == " Local"
  {
    ClockText(iso(t - LocalOffsetSeconds))
  }

  /**
   * When the instant seven hours before `t` prints as an ISO string, the
   * label shows that string's hour and minute: the clock runs 7 hours
   * behind UTC.
   */
  lemma ClockLabelOfIso(t: int, iso: int -> string, year: string, month: string, day: string, hour: string,
                        minute: string, second: string, frac: string)
    requires IsoFields(year, month, day, hour, minute, second, frac)
    requires iso(t - 7 * 3600) == Iso(year, month, day, hour, minute, second, frac)
    ensures ClockLabel(t, iso) == Some(hour + ":" + minute + " Local")
  {
    ClockTextOfIso(year, month, day, hour, minute, second, frac);
  }

  // ---------------------------------------------------------------------------
  // Telescope marker
  // ---------------------------------------------------------------------------

  /**
   * The marker for one telemetry row: column 1 (mount_el) as altitude and
   * column 2 (mount_az) as azimuth, through `altaz_to_xy`. A missing column
   * (IndexError) or an unparsable cell (ValueError from `float`) is `None`.
   */
  function RowMarker(row: seq<string>, parseFloat: string -> Option<real>, trig: Trig): (p: Option<Pixel>)
    ensures p.Some? <==> |row| >= 3 && parseFloat(row[1]).Some? && parseFloat(row[2]).Some?
    ensures p.Some? ==> p.value == AltAzToXY(parseFloat(row[1]).value, parseFloat(row[2]).value, trig)
  {
    if |row| < 3 then None
    else
      match (parseFloat(row[1]), parseFloat(row[2]))
      case (Some(el), Some(az)) => Some(AltAzToXY(el, az, trig))
      case _ => None
  }

  /** The marker of `create_image` comes from row 1 of the telemetry CSV, the first after the header. */
  function PointingMarker(rows: seq<seq<string>>, parseFloat: string -> Option<real>, trig: Trig): (p: Option<Pixel>)
    ensures p.Some? <==> |rows| >= 2 && |rows[1]| >= 3 && parseFloat(rows[1][1]).Some? && parseFloat(rows[1][2]).Some?
    ensures p.Some? ==> p.value == AltAzToXY(parseFloat(rows[1][1]).value, parseFloat(rows[1][2]).value, trig)
  {
    if |rows| < 2 then None else RowMarker(rows[1], parseFloat, trig)
  }
}

/**
 * The feature loaders: the ecliptic and the Milky Way tracks and the two
 * survey-footprint polygons. Each loader thins its list of `[ra, dec]`
 * samples, splits it into an RA list and a Dec list, and either returns
 * those or projects them to pixels (trimming the two tracks, not the
 * polygons). Reading and parsing the JSON files is not modelled: the
 * parsed lists are the inputs.
 */
module Io {
  import opened Wrappers
  import opened Coordinates

  /** One `[ra, dec]` entry of a feature file, in degrees. */
  datatype RaDec = RaDec(ra: real, dec: real)

  /** What a track loader returns: the thinned RA/Dec lists, or the trimmed pixel lists. */
  datatype Track = Equatorial(ra: seq<real>, dec: seq<real>) | Trimmed(x: seq<Option<real>>, y: seq<Option<real>>)

  /** What the survey loader returns: four RA/Dec lists, or the two projected polygons. */
  datatype Survey =
    | SurveyEquatorial(leftRa: seq<real>, leftDec: seq<real>, rightRa: seq<real>, rightDec: seq<real>)
    | SurveyPolygons(left: seq<Pixel>, right: seq<Pixel>)

  // ---------------------------------------------------------------------------
  // Ecliptic thinning: keep index i when i % 10 is 2, 3, 4 or 5
  // ---------------------------------------------------------------------------

  predicate EclipticKept(i: nat) { 2 <= i % 10 <= 5 }

  /** How many of the indices 0..n-1 are kept: 4 per full decade plus max(0, min(n % 10, 6) - 2). */
  function EclipticCount(n: nat): nat {
    4 * (n / 10) + (if n % 10 <= 2 then 0 else if n % 10 >= 6 then 4 else n % 10 - 2)
  }

  /** The index of the k-th kept sample. */
  function EclipticIndex(k: nat): nat {
    10 * (k / 4) + 2 + k % 4
  }

  /** One more index adds one kept sample exactly when it is kept, and that sample's rank is the old count. */
  lemma EclipticCountStep(i: nat)
    ensures EclipticCount(i + 1) == EclipticCount(i) + (if EclipticKept(i) then 1 else 0)
    ensures EclipticKept(i) ==> EclipticIndex(EclipticCount(i)) == i
  {
    var q, m := i / 10, i % 10;
    if m < 9 {
      assert (i + 1) / 10 == q && (i + 1) % 10 == m + 1;
    } else {
      assert (i + 1) / 10 == q + 1 && (i + 1) % 10 == 0;
    }
    if EclipticKept(i) {
      var k := EclipticCount(i);
      assert k == 4 * q + (m - 2);
      assert k / 4 == q && k % 4 == m - 2;
    }
  }

  /**
   * The kept indices are enumerated in increasing order by EclipticIndex:
   * every enumerated index is kept, every kept index is enumerated, and
   * exactly EclipticCount(n) of them lie below n.
   */
  lemma EclipticEnumeration(k: nat, n: nat)
    ensures EclipticKept(EclipticIndex(k))
    ensures EclipticIndex(k) < EclipticIndex(k + 1)
    ensures EclipticIndex(k) < n <==> k < EclipticCount(n)
    ensures EclipticCount(EclipticIndex(k)) == k
  {
    EclipticIndexDigits(k);
    EclipticBelow(k, n);
  }

  /** The decade and last digit of the k-th kept index, and of the next one. */
  lemma EclipticIndexDigits(k: nat)
    ensures EclipticIndex(k) % 10 == 2 + k % 4 && EclipticIndex(k) / 10 == k / 4
    ensures EclipticIndex(k) < EclipticIndex(k + 1)
    ensures EclipticCount(EclipticIndex(k)) == k
  {
    var q, j := k / 4, k % 4;
    assert EclipticIndex(k) == 10 * q + (2 + j);
    if j < 3 {
      assert (k + 1) / 4 == q && (k + 1) % 4 == j + 1;
    } else {
      assert (k + 1) / 4 == q + 1 && (k + 1) % 4 == 0;
    }
  }

  lemma EclipticBelow(k: nat, n: nat)
    ensures EclipticIndex(k) < n <==> k < EclipticCount(n)
  {
    var q, j := k / 4, k % 4;
    var a, b := n / 10, n % 10;
    assert k == 4 * q + j && n == 10 * a + b;
    var c := EclipticCount(n) - 4 * a;
    assert 0 <= c <= 4;
    if q < a {
      assert EclipticIndex(k) < n && k < EclipticCount(n);
    } else if q > a {
      assert EclipticIndex(k) >= n && k >= EclipticCount(n);
    } else {
      assert EclipticIndex(k) < n <==> 2 + j < b;
      assert k < EclipticCount(n) <==> j < c;
    }
  }

  /** The `ep2` loop of `load_ecliptic`: append the samples whose index is kept, in order. */
  method DecimateEcliptic<T>(ep: seq<T>) returns (ep2: seq<T>)
    ensures |ep2| == EclipticCount(|ep|)
    ensures forall k :: 0 <= k < |ep2| ==> EclipticIndex(k) < |ep| && ep2[k] == ep[EclipticIndex(k)]
  {
    ep2 := [];
    var i := 0;
    while i < |ep|
      invariant 0 <= i <= |ep|
      invariant |ep2| == EclipticCount(i)
      invariant forall k :: 0 <= k < |ep2| ==> EclipticIndex(k) < i && ep2[k] == ep[EclipticIndex(k)]
    {
      EclipticCountStep(i);
      if i % 10 >= 2 && i % 10 <= 5 {
        ep2 := ep2 + [ep[i]];
      }
      i := i + 1;
    }
  }

  // ---------------------------------------------------------------------------
  // Milky Way thinning: mw[::6]
  // ---------------------------------------------------------------------------

  /** `s[::6]`: the samples at indices 0, 6, 12, ..., that is, ceil(n / 6) of them. */
  function EverySixth<T>(s: seq<T>): (r: seq<T>)
    ensures |r| == (|s| + 5) / 6
    ensures forall k :: 0 <= k < |r| ==> 6 * k < |s| && r[k] == s[6 * k]
    decreases |s|
  {
    if |s| == 0 then []
    else if |s| <= 6 then [s[0]]
    else [s[0]] + EverySixth(s[6..])
  }

  // ---------------------------------------------------------------------------
  // Splitting [ra, dec] pairs and re-pairing pixels
  // ---------------------------------------------------------------------------

  /** `[c[0] for c in samples]`. */
  function Ras(samples: seq<RaDec>): (ra: seq<real>)
    ensures |ra| == |samples|
    ensures forall i :: 0 <= i < |samples| ==> ra[i] == samples[i].ra
  {
    seq(|samples|, i requires 0 <= i < |samples| => samples[i].ra)
  }

  /** `[c[1] for c in samples]`. */
  function Decs(samples: seq<RaDec>): (dec: seq<real>)
    ensures |dec| == |samples|
    ensures forall i :: 0 <= i < |samples| ==> dec[i] == samples[i].dec
  {
    seq(|samples|, i requires 0 <= i < |samples| => samples[i].dec)
  }

  /** `[(x[i], y[i]) for i, _ in enumerate(x)]`; indexing `y` past its end would raise. */
  function PairUp(x: seq<real>, y: seq<real>): (points: seq<Pixel>)
    requires |x| <= |y|
  {
    seq(|x|, i requires 0 <= i < |x| => Pixel(x[i], y[i]))
  }

  /** Pairing then taking coordinates apart again gives back both lists (cut to the first one's length). */
  lemma PairUpRoundTrip(x: seq<real>, y: seq<real>)
    requires |x| <= |y|
    ensures var ps := PairUp(x, y);
            |ps| == |x| &&
            seq(|ps|, i requires 0 <= i < |ps| => ps[i].x) == x &&
            seq(|ps|, i requires 0 <= i < |ps| => ps[i].y) == y[..|x|]
  {
  }

  /** Splitting and rejoining the samples gives the samples back. */
  lemma SplitRoundTrip(samples: seq<RaDec>)
    ensures seq(|samples|, i requires 0 <= i < |samples| => RaDec(Ras(samples)[i], Decs(samples)[i])) == samples
  {
    var r := seq(|samples|, i requires 0 <= i < |samples| => RaDec(Ras(samples)[i], Decs(samples)[i]));
    forall i | 0 <= i < |samples| ensures r[i] == samples[i] {
      assert r[i] == RaDec(Ras(samples)[i], Decs(samples)[i]);
      assert Ras(samples)[i] == samples[i].ra && Decs(samples)[i] == samples[i].dec;
    }
  }

  // ---------------------------------------------------------------------------
  // The loaders
  // ---------------------------------------------------------------------------

  /** The pixel one sample projects to at `time`. */
  function Project(s: RaDec, time: int, sky: SkyTransform, trig: Trig): Pixel {
    var h := sky(s.ra, s.dec, time);
    AltAzToXY(h.alt, h.az, trig)
  }

  /** What `trim` leaves of one projected sample, as its entries in the x and y lists. */
  function TrimmedX(p: Pixel): Option<real> { if OnDisk(p.x, p.y) then Some(p.x) else None }
  function TrimmedY(p: Pixel): Option<real> { if OnDisk(p.x, p.y) then Some(p.y) else None }

  /** Project a thinned track and trim it, as both track loaders do when `radec` is false. */
  method ProjectAndTrim(samples: seq<RaDec>, time: int, sky: SkyTransform, trig: Trig) returns (t: Track)
    ensures t.Trimmed? && |t.x| == |samples| && |t.y| == |samples|
    ensures forall k :: 0 <= k < |samples| ==>
              t.x[k] == TrimmedX(Project(samples[k], time, sky, trig)) &&
              t.y[k] == TrimmedY(Project(samples[k], time, sky, trig))
  {
    var xy := RadecToXY(Ras(samples), Decs(samples), time, sky, trig);
    var x, y := Trim(xy.0, xy.1);
    t := Trimmed(x, y);
  }

  /**
   * `load_ecliptic`: keep the samples whose index modulo 10 is 2..5, then
   * return their RA/Dec lists, or their projected and trimmed x/y lists.
   */
  method LoadEcliptic(ep: seq<RaDec>, time: int, radec: bool, sky: SkyTransform, trig: Trig) returns (t: Track)
    ensures radec ==> t.Equatorial? && |t.ra| == EclipticCount(|ep|) && |t.dec| == EclipticCount(|ep|)
    ensures radec ==> forall k :: 0 <= k < |t.ra| ==>
              EclipticIndex(k) < |ep| && t.ra[k] == ep[EclipticIndex(k)].ra && t.dec[k] == ep[EclipticIndex(k)].dec
    ensures !radec ==> t.Trimmed? && |t.x| == EclipticCount(|ep|) && |t.y| == EclipticCount(|ep|)
    ensures !radec ==> forall k :: 0 <= k < |t.x| ==>
              EclipticIndex(k) < |ep| &&
              t.x[k] == TrimmedX(Project(ep[EclipticIndex(k)], time, sky, trig)) &&
              t.y[k] == TrimmedY(Project(ep[EclipticIndex(k)], time, sky, trig))
  {
    var ep2 := DecimateEcliptic(ep);
    if radec {
      t := Equatorial(Ras(ep2), Decs(ep2));
    } else {
      t := ProjectAndTrim(ep2, time, sky, trig);
    }
  }

  /**
   * `load_milky_way`: keep every sixth sample, then return their RA/Dec
   * lists, or their projected and trimmed x/y lists.
   */
  method LoadMilkyWay(mw: seq<RaDec>, time: int, radec: bool, sky: SkyTransform, trig: Trig) returns (t: Track)
    ensures radec ==> t.Equatorial? && |t.ra| == (|mw| + 5) / 6 && |t.dec| == (|mw| + 5) / 6
    ensures radec ==> forall k :: 0 <= k < |t.ra| ==>
              6 * k < |mw| && t.ra[k] == mw[6 * k].ra && t.dec[k] == mw[6 * k].dec
    ensures !radec ==> t.Trimmed? && |t.x| == (|mw| + 5) / 6 && |t.y| == (|mw| + 5) / 6
    ensures !radec ==> forall k :: 0 <= k < |t.x| ==>
              6 * k < |mw| &&
              t.x[k] == TrimmedX(Project(mw[6 * k], time, sky, trig)) &&
              t.y[k] == TrimmedY(Project(mw[6 * k], time, sky, trig))
  {
    var thinned := EverySixth(mw);
    if radec {
      t := Equatorial(Ras(thinned), Decs(thinned));
    } else {
      t := ProjectAndTrim(thinned, time, sky, trig);
    }
  }

  /**
   * `load_survey`: the two footprint polygons, as RA/Dec lists or as
   * projected vertices. The polygons are never thinned and never trimmed:
   * vertex i is the projection of sample i.
   */
  function LoadSurvey(left: seq<RaDec>, right: seq<RaDec>, time: int, radec: bool, sky: SkyTransform, trig: Trig)
    : (s: Survey)
    ensures radec ==> s == SurveyEquatorial(Ras(left), Decs(left), Ras(right), Decs(right))
    ensures !radec ==> s.SurveyPolygons? && |s.left| == |left| && |s.right| == |right|
    ensures !radec ==> forall i :: 0 <= i < |left| ==> s.left[i] == Project(left[i], time, sky, trig)
    ensures !radec ==> forall i :: 0 <= i < |right| ==> s.right[i] == Project(right[i], time, sky, trig)
  {
    if radec then SurveyEquatorial(Ras(left), Decs(left), Ras(right), Decs(right))
    else
      var l := RadecToXY(Ras(left), Decs(left), time, sky, trig);
      var r := RadecToXY(Ras(right), Decs(right), time, sky, trig);
      SurveyPolygons(PairUp(l.0, l.1), PairUp(r.0, r.1))
  }

  /** Survey vertices, being untrimmed, may lie anywhere within 510 pixels of the zenith pixel. */
  lemma SurveyVerticesNearZenith(left: seq<RaDec>, right: seq<RaDec>, time: int, sky: SkyTransform, trig: Trig, i: nat)
    requires IsTrig(trig) && i < |left|
    ensures var p := LoadSurvey(left, right, time, false, sky, trig).left[i];
            Square(p.x - ZenithX) + Square(p.y - ZenithY) <= Square(MaxRadius)
  {
    var h := sky(left[i].ra, left[i].dec, time);
    NearZenith(h.alt, h.az, trig);
  }
}

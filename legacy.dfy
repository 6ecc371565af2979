/**
 * The stand-alone `desipoint.py` script that preceded the package: its own
 * copies of the projection table, `altaz_to_xy`, `radec_to_xy` and a
 * copying `trim`, the download of one image every 120 seconds with no
 * allowance for a missing one, and the animation that shows every image on
 * two frames and a telemetry row and a two-part label on each frame.
 */
module Legacy {
  import opened Wrappers
  import opened Strings
  import opened Interpolation
  import Coordinates
  import Image
  import Video

  // ---------------------------------------------------------------------------
  // Projection
  // ---------------------------------------------------------------------------

  /** The script's `theta_sw`, written there with integers. */
  const ZenithTable: seq<real> := [0.0, 10.0, 20.0, 30.0, 40.0, 50.0, 60.0, 70.0, 80.0, 90.0, 95.0]
  /** The script's `r_sw`. */
  const RadiusTable: seq<real> := [0.0, 55.0, 110.0, 165.0, 220.0, 275.0, 330.0, 385.0, 435.0, 480.0, 510.0]

  /**
   * `altaz_to_xy` on whole arrays: interpolate the radius, rotate the
   * azimuth by 0.1 degree, then take each point's polar offsets. Point by
   * point it is the package's projection.
   */
  function AltAzToXY(alt: seq<real>, az: seq<real>, trig: Coordinates.Trig): (xy: (seq<real>, seq<real>))
    requires |alt| == |az|
    ensures |xy.0| == |alt| && |xy.1| == |alt|
    ensures forall i :: 0 <= i < |alt| ==>
              Coordinates.Pixel(xy.0[i], xy.1[i]) == Coordinates.AltAzToXY(alt[i], az[i], trig)
  {
    var n := |alt|;
    var r := seq(n, i requires 0 <= i < n => Interp(90.0 - alt[i], ZenithTable, RadiusTable));
    var a := seq(n, i requires 0 <= i < n => az[i] + 0.1);
    var p := seq(n, i requires 0 <= i < n => Polar(r[i], a[i], trig));
    assert forall i :: 0 <= i < n ==> p[i] == Coordinates.AltAzToXY(alt[i], az[i], trig) by {
      forall i | 0 <= i < n ensures p[i] == Coordinates.AltAzToXY(alt[i], az[i], trig) {
        PointAgrees(alt[i], az[i], trig);
      }
    }
    (seq(n, i requires 0 <= i < n => p[i].x), seq(n, i requires 0 <= i < n => p[i].y))
  }

  /**
   * The pixel at radius `r` and rotated azimuth `a`: x = -r sin(a) and
   * y = r cos(a) from (512, 512), y counted from the top, then the zenith
   * shift of 2 pixels right and 3 down.
   */
  function Polar(r: real, a: real, trig: Coordinates.Trig): Coordinates.Pixel {
    var x := -1.0 * r * trig.sinDeg(a);
    var y := r * trig.cosDeg(a);
    Coordinates.Pixel(x + 512.0 + 2.0, 512.0 - y + 3.0)
  }

  /** One point of the script's projection is the package's. */
  lemma PointAgrees(alt: real, az: real, trig: Coordinates.Trig)
    ensures Polar(Interp(90.0 - alt, ZenithTable, RadiusTable), az + 0.1, trig) == Coordinates.AltAzToXY(alt, az, trig)
  {
    RadiusAgrees(alt);
    RotatedPoint(alt, az, trig);
  }

  /** The script's interpolation gives the package's radius. */
  lemma RadiusAgrees(alt: real)
    ensures Interp(90.0 - alt, ZenithTable, RadiusTable) == Coordinates.Radius(alt)
  {
    TablesAgree();
  }

  /** The package's projection with its rotation written as the script writes it. */
  lemma RotatedPoint(alt: real, az: real, trig: Coordinates.Trig)
    ensures Coordinates.AltAzToXY(alt, az, trig) == Polar(Coordinates.Radius(alt), az + 0.1, trig)
  {
    var r, a := Coordinates.Radius(alt), az + 0.1;
    assert a == az + Coordinates.Rotation;
    assert Coordinates.AltAzToXY(alt, az, trig) == Coordinates.PolarPixel(r, a, trig);
    PolarAgrees(r, a, trig);
  }

  /** The script's offsets are the package's centre and zenith shift. */
  lemma PolarAgrees(r: real, a: real, trig: Coordinates.Trig)
    ensures Polar(r, a, trig) == Coordinates.PolarPixel(r, a, trig)
  {
  }

  /** The script's table is the package's. */
  lemma TablesAgree()
    ensures ZenithTable == Coordinates.ZenithTable && RadiusTable == Coordinates.RadiusTable
  {
  }

  /** `radec_to_xy`: the sky transformation, then `altaz_to_xy` on the two arrays. */
  function RadecToXY(ra: seq<real>, dec: seq<real>, time: int, sky: Coordinates.SkyTransform, trig: Coordinates.Trig)
    : (xy: (seq<real>, seq<real>))
    requires |ra| == |dec|
    ensures |xy.0| == |ra| && |xy.1| == |ra|
  {
    var alt := seq(|ra|, i requires 0 <= i < |ra| => sky(ra[i], dec[i], time).alt);
    var az := seq(|ra|, i requires 0 <= i < |ra| => sky(ra[i], dec[i], time).az);
    AltAzToXY(alt, az, trig)
  }

  /** The script's `radec_to_xy` gives exactly the package's. */
  lemma RadecToXYAgrees(ra: seq<real>, dec: seq<real>, time: int, sky: Coordinates.SkyTransform, trig: Coordinates.Trig)
    requires |ra| == |dec|
    ensures RadecToXY(ra, dec, time, sky, trig) == Coordinates.RadecToXY(ra, dec, time, sky, trig)
  {
    var mine, theirs := RadecToXY(ra, dec, time, sky, trig), Coordinates.RadecToXY(ra, dec, time, sky, trig);
    forall i | 0 <= i < |ra| ensures mine.0[i] == theirs.0[i] && mine.1[i] == theirs.1[i] {
      var h := sky(ra[i], dec[i], time);
      assert Coordinates.Pixel(mine.0[i], mine.1[i]) == Coordinates.AltAzToXY(h.alt, h.az, trig);
      assert Coordinates.Pixel(theirs.0[i], theirs.1[i]) == Coordinates.AltAzToXY(h.alt, h.az, trig);
    }
    assert mine.0 == theirs.0 && mine.1 == theirs.1;
  }

  // ---------------------------------------------------------------------------
  // trim, on copies
  // ---------------------------------------------------------------------------

  /** The test of the script's `trim`: distance from (512, 512) at most 504 (squared on both sides). */
  predicate Kept(x: real, y: real) {
    Coordinates.Square(512.0 - x) + Coordinates.Square(512.0 - y) <= Coordinates.Square(504.0)
  }

  /** It is the package's disk. */
  lemma KeptAgrees(x: real, y: real)
    ensures Kept(x, y) == Coordinates.OnDisk(x, y)
  {
  }

  /**
   * The masking loop of `trim`: every point of the shifted copies lying
   * farther than 504 from the centre becomes NaN; the others stay.
   */
  method MaskOutside(x: array<Option<real>>, y: array<Option<real>>, xs: seq<real>, ys: seq<real>)
    requires x != y && x.Length == y.Length == |xs| == |ys|
    requires forall k :: 0 <= k < |xs| ==> x[k] == Some(512.0 - xs[k]) && y[k] == Some(512.0 - ys[k])
    modifies x, y
    ensures forall k :: 0 <= k < |xs| ==>
              x[k] == (if Kept(xs[k], ys[k]) then Some(512.0 - xs[k]) else None) &&
              y[k] == (if Kept(xs[k], ys[k]) then Some(512.0 - ys[k]) else None)
  {
    var n := |xs|;
    // Squared distances, standing in for np.hypot (both are compared with 504).
    var r2 := seq(n, k requires 0 <= k < n => Coordinates.Square(512.0 - xs[k]) + Coordinates.Square(512.0 - ys[k]));
    var i := 0;
    while i < n
      invariant 0 <= i <= n
      invariant forall k :: 0 <= k < n ==>
                  x[k] == (if k < i && !Kept(xs[k], ys[k]) then None else Some(512.0 - xs[k])) &&
                  y[k] == (if k < i && !Kept(xs[k], ys[k]) then None else Some(512.0 - ys[k]))
    {
      if r2[i] > Coordinates.Square(504.0) {
        x[i] := None;
        y[i] := None;
      }
      i := i + 1;
    }
  }

  /**
   * The `trim` defined inside `create_video`: shift copies of both arrays to
   * the centre, overwrite each point farther than 504 from (512, 512) with
   * NaN, and return the copies shifted back. The caller's arrays are never
   * written, and the results are new arrays.
   */
  method Trim(xIn: array<real>, yIn: array<real>) returns (xOut: array<Option<real>>, yOut: array<Option<real>>)
    requires xIn.Length == yIn.Length
    ensures fresh(xOut) && fresh(yOut)
    ensures xOut.Length == xIn.Length && yOut.Length == yIn.Length
    ensures forall i :: 0 <= i < xIn.Length ==>
              xOut[i] == (if Coordinates.OnDisk(xIn[i], yIn[i]) then Some(xIn[i]) else None) &&
              yOut[i] == (if Coordinates.OnDisk(xIn[i], yIn[i]) then Some(yIn[i]) else None)
  {
    var n := xIn.Length;
    var xs, ys := xIn[..], yIn[..];
    var x := new Option<real>[n](k requires 0 <= k < n => Some(512.0 - xs[k]));
    var y := new Option<real>[n](k requires 0 <= k < n => Some(512.0 - ys[k]));
    MaskOutside(x, y, xs, ys);
    xOut := new Option<real>[n](k reads x requires 0 <= k < n => Coordinates.Unshift(x[k]));
    yOut := new Option<real>[n](k reads y requires 0 <= k < n => Coordinates.Unshift(y[k]));
    forall k | 0 <= k < n ensures Kept(xs[k], ys[k]) == Coordinates.OnDisk(xIn[k], yIn[k]) {
      KeptAgrees(xs[k], ys[k]);
    }
  }

  // ---------------------------------------------------------------------------
  // Downloading one image every 120 seconds
  // ---------------------------------------------------------------------------

  /** The server this script reads from. */
  const BaseUrl: string := "http://varuna.kpno.noao.edu/allsky-all/images/cropped/"

  /** The night the script is written for, and its first and last instants as seconds after midnight. */
  const Date: string := "20200316"
  const StartSeconds: int := 2 * 3600 + 30 * 60 + 5
  const EndSeconds: int := 13 * 3600

  /** A download that is not an image makes `Image.open` raise. */
  datatype DownloadError = UnreadableImage(time: int)

  /**
   * The image found for an instant: `str(cur_time)` is `iso(t)`, the URL is
   * built from it as in the package, and `get(url)` is the download and
   * decoding of the page, `None` when the page is not an image.
   */
  function Fetcher<D>(get: string -> Option<D>, iso: int -> string): int -> Option<D> {
    t => get(Image.ImageUrl(BaseUrl, iso(t)))
  }

  /** The instants start, start + 120, ... before `end`. */
  function Ticks(start: int, end: int): seq<int>
    decreases end - start
  {
    if start >= end then [] else [start] + Ticks(start + 120, end)
  }

  /** There are ceil((end - start) / 120) instants, the k-th at start + 120 k, all before `end`. */
  lemma {:induction false} TicksSpacing(start: int, end: int)
    ensures |Ticks(start, end)| == if start >= end then 0 else (end - start + 119) / 120
    ensures forall k :: 0 <= k < |Ticks(start, end)| ==> Ticks(start, end)[k] == start + 120 * k < end
    decreases end - start
  {
    if start < end {
      var rest := Ticks(start + 120, end);
      TicksSpacing(start + 120, end);
      assert Ticks(start, end) == [start] + rest;
      if start + 120 < end {
        assert (end - start + 119) / 120 == (end - start - 120 + 119) / 120 + 1;
      }
      forall k | 1 <= k < |Ticks(start, end)| ensures Ticks(start, end)[k] == start + 120 * k < end {
        assert Ticks(start, end)[k] == rest[k - 1];
      }
    }
  }

  /** The night of `Date` yields 315 images, and so 629 frames. */
  lemma NightOfDate(midnight: int)
    ensures |Ticks(midnight + StartSeconds, midnight + EndSeconds)| == 315
    ensures FrameCount(315) == 629
  {
    TicksSpacing(midnight + StartSeconds, midnight + EndSeconds);
  }

  /** `date[:4] + "-" + date[4:6] + "-" + date[6:8]`, the day given to `Time`. */
  function DayString(date: string): string {
    PySlice(date, 0, 4) + "-" + PySlice(date, 4, 6) + "-" + PySlice(date, 6, 8)
  }

  /** Taking the dashes back out of the day string gives the eight-character date again. */
  lemma DayStringRoundTrip(date: string)
    requires |date| == 8 && '-' !in date
    ensures Remove(DayString(date), '-') == date
  {
    var y, m, d := date[..4], date[4..6], date[6..];
    assert PySlice(date, 0, 4) == y && PySlice(date, 4, 6) == m && PySlice(date, 6, 8) == d;
    assert '-' !in y && '-' !in m && '-' !in d by {
      assert forall c :: c in y || c in m || c in d ==> c in date;
    }
    Image.RemoveSeparators(y, m, d, '-');
    assert y + m + d == date;
  }

  /** The state of the download loop at `cur`: the instants `done` before it were all found, in order, as `images`. */
  ghost predicate Fetched<D>(start: int, end: int, fetch: int -> Option<D>, cur: int,
                             done: seq<int>, images: seq<Video.AllSkyImage<D>>) {
    && Ticks(start, end) == done + Ticks(cur, end)
    && AllFound(fetch, done)
    && Stamped(images, done)
    && Video.Downloaded(start, end, fetch) == images + Video.Downloaded(cur, end, fetch)
  }

  ghost predicate AllFound<D>(fetch: int -> Option<D>, times: seq<int>) {
    forall k :: 0 <= k < |times| ==> fetch(times[k]).Some?
  }

  predicate Stamped<D>(images: seq<Video.AllSkyImage<D>>, times: seq<int>) {
    |images| == |times| && forall k :: 0 <= k < |times| ==> images[k].time == times[k]
  }

  /** `t` is one of the instants, not found, and every instant before it was found. */
  ghost predicate FirstMissing<D>(fetch: int -> Option<D>, times: seq<int>, t: int) {
    exists k :: 0 <= k < |times| && times[k] == t && fetch(t).None? && forall j :: 0 <= j < k ==> fetch(times[j]).Some?
  }

  /** One more instant visited: it is the next of the instants, and those before it are the ones done. */
  lemma TicksStep(start: int, end: int, cur: int, done: seq<int>)
    requires Ticks(start, end) == done + Ticks(cur, end) && cur < end
    ensures Ticks(start, end) == done + [cur] + Ticks(cur + 120, end)
    ensures |done| < |Ticks(start, end)| && Ticks(start, end)[|done|] == cur
    ensures forall j :: 0 <= j < |done| ==> Ticks(start, end)[j] == done[j]
  {
    var later := Ticks(cur + 120, end);
    assert Ticks(cur, end) == [cur] + later;
    assert done + ([cur] + later) == done + [cur] + later;
  }

  lemma DownloadedStep<D>(start: int, end: int, fetch: int -> Option<D>, cur: int, images: seq<Video.AllSkyImage<D>>, d: D)
    requires Video.Downloaded(start, end, fetch) == images + Video.Downloaded(cur, end, fetch)
    requires cur < end && fetch(cur) == Some(d)
    ensures Video.Downloaded(start, end, fetch) == images + [Video.AllSkyImage(d, cur)] + Video.Downloaded(cur + 120, end, fetch)
  {
    var im, rest := Video.AllSkyImage(d, cur), Video.Downloaded(cur + 120, end, fetch);
    assert Video.Downloaded(cur, end, fetch) == [im] + rest;
    assert images + ([im] + rest) == images + [im] + rest;
  }

  lemma FoundStep<D>(fetch: int -> Option<D>, images: seq<Video.AllSkyImage<D>>, done: seq<int>, cur: int, d: D)
    requires AllFound(fetch, done) && Stamped(images, done) && fetch(cur) == Some(d)
    ensures AllFound(fetch, done + [cur]) && Stamped(images + [Video.AllSkyImage(d, cur)], done + [cur])
  {
    var done', images' := done + [cur], images + [Video.AllSkyImage(d, cur)];
    forall k | 0 <= k < |done'| ensures fetch(done'[k]).Some? && images'[k].time == done'[k] {
      if k < |done| { assert done'[k] == done[k] && images'[k] == images[k]; }
    }
  }

  lemma FetchedFound<D>(start: int, end: int, fetch: int -> Option<D>, cur: int,
                        done: seq<int>, images: seq<Video.AllSkyImage<D>>, d: D)
    requires Fetched(start, end, fetch, cur, done, images)
    requires cur < end && fetch(cur) == Some(d)
    ensures Fetched(start, end, fetch, cur + 120, done + [cur], images + [Video.AllSkyImage(d, cur)])
  {
    TicksStep(start, end, cur, done);
    DownloadedStep(start, end, fetch, cur, images, d);
    FoundStep(fetch, images, done, cur, d);
  }

  lemma FetchedMissing<D>(start: int, end: int, fetch: int -> Option<D>, cur: int,
                          done: seq<int>, images: seq<Video.AllSkyImage<D>>)
    requires Fetched(start, end, fetch, cur, done, images)
    requires cur < end && fetch(cur).None?
    ensures FirstMissing(fetch, Ticks(start, end), cur)
    ensures !AllFound(fetch, Ticks(start, end))
  {
    TicksStep(start, end, cur, done);
    assert Ticks(start, end)[|done|] == cur;
  }

  lemma FetchedAll<D>(start: int, end: int, fetch: int -> Option<D>, cur: int,
                      done: seq<int>, images: seq<Video.AllSkyImage<D>>)
    requires Fetched(start, end, fetch, cur, done, images)
    requires cur >= end
    ensures AllFound(fetch, Ticks(start, end)) && Stamped(images, Ticks(start, end))
    ensures images == Video.Downloaded(start, end, fetch)
  {
    assert Ticks(cur, end) == [];
    assert done + [] == done && images + [] == images;
  }

  /**
   * The download loop of `create_video`: from `start`, every 120 seconds
   * while before `end`, fetch the image and append it with its instant; the
   * first page that is not an image ends the script with an exception.
   */
  method DownloadImages<D>(start: int, end: int, get: string -> Option<D>, iso: int -> string)
    returns (r: Result<seq<Video.AllSkyImage<D>>, DownloadError>)
    ensures r.Success? <==> AllFound(Fetcher(get, iso), Ticks(start, end))
    ensures r.Success? ==> r.value == Video.Downloaded(start, end, Fetcher(get, iso))
    ensures r.Success? ==> Stamped(r.value, Ticks(start, end))
    ensures r.Failure? ==> FirstMissing(Fetcher(get, iso), Ticks(start, end), r.error.time)
  {
    r := DownloadLoop(start, end, Fetcher(get, iso));
  }

  /** The loop of DownloadImages, for any way `fetch` of finding the image of an instant. */
  method DownloadLoop<D>(start: int, end: int, fetch: int -> Option<D>)
    returns (r: Result<seq<Video.AllSkyImage<D>>, DownloadError>)
    ensures r.Success? <==> AllFound(fetch, Ticks(start, end))
    ensures r.Success? ==> r.value == Video.Downloaded(start, end, fetch)
    ensures r.Success? ==> Stamped(r.value, Ticks(start, end))
    ensures r.Failure? ==> FirstMissing(fetch, Ticks(start, end), r.error.time)
  {
    var images: seq<Video.AllSkyImage<D>> := [];
    var cur := start;
    ghost var done: seq<int> := [];
    while cur < end
      invariant Fetched(start, end, fetch, cur, done, images)
      decreases end - cur
    {
      var img := fetch(cur);
      if img.None? {
        FetchedMissing(start, end, fetch, cur, done, images);
        return Failure(UnreadableImage(cur));
      }
      FetchedFound(start, end, fetch, cur, done, images, img.value);
      images, done, cur := images + [Video.AllSkyImage(img.value, cur)], done + [cur], cur + 120;
    }
    FetchedAll(start, end, fetch, cur, done, images);
    return Success(images);
  }

  // ---------------------------------------------------------------------------
  // Frames
  // ---------------------------------------------------------------------------

  /** `len(images) * 2 - 1`: two frames per image, but only one for the last. */
  function FrameCount(images: nat): int {
    images * 2 - 1
  }

  /** Frame `n` shows image n // 2, which is always in range; every image is shown, on frames 2k and (but for the last) 2k + 1. */
  lemma FrameImages(images: nat, n: nat, k: nat)
    ensures n < FrameCount(images) ==> n / 2 < images
    ensures k < images ==> 2 * k < FrameCount(images) && (2 * k) / 2 == k && (2 * k + 1) / 2 == k
    ensures k < images ==> (2 * k + 1 < FrameCount(images) <==> k + 1 < images)
  {
  }

  /** A row of the night's telemetry table: the label text and the telescope's altitude and azimuth. */
  datatype Row = Row(text: string, alt: real, az: real)

  /** The two text items at the bottom of the frame, and the opacity of the second. */
  datatype Label = Label(time: string, progress: string, alpha: real)

  /** The label drawn before the first frame, from row 0: `label[0:8]` and `label[8:]`. */
  function InitialLabel(text: string): (l: Label)
    ensures l.time + l.progress == text
    ensures |l.time| == if |text| < 8 then |text| else 8
    ensures l.alpha == 1.0
  {
    Label(PySlice(text, 0, 8), PySlice(text, 8, |text|), 1.0)
  }

  /**
   * The label step of `update_img`: the first eight characters always
   * become the time text; a non-empty remainder replaces the progress text
   * at full opacity, while an empty one leaves the old progress text at
   * half opacity.
   */
  function UpdateLabel(l: Label, text: string): (l': Label)
    ensures l'.time <= text && |l'.time| == if |text| < 8 then |text| else 8
    ensures |text| > 8 ==> l'.time + l'.progress == text && l'.alpha == 1.0
    ensures |text| <= 8 ==> l'.time == text && l'.progress == l.progress && l'.alpha == 0.5
  {
    var time, rest := PySlice(text, 0, 8), PySlice(text, 8, |text|);
    if rest != "" then Label(time, rest, 1.0)
    else Label(time, l.progress, 0.5)
  }

  /** The label after `update_img` has run for frames 0..n, each with its own row. */
  function LabelAfter(rows: seq<Row>, n: nat): Label
    requires n < |rows|
    decreases n
  {
    var before := if n == 0 then InitialLabel(rows[0].text) else LabelAfter(rows, n - 1);
    UpdateLabel(before, rows[n].text)
  }

  /** The text after the first eight characters of a row's label. */
  function Remainder(text: string): string {
    PySlice(text, 8, |text|)
  }

  /** The latest row at or before n whose label has a remainder, or row 0 if none has. */
  function LastProgressRow(rows: seq<Row>, n: nat): (k: nat)
    requires n < |rows|
    ensures k <= n && (k == 0 || |rows[k].text| > 8)
    ensures forall j :: k < j <= n ==> |rows[j].text| <= 8
    decreases n
  {
    if n == 0 || |rows[n].text| > 8 then n else LastProgressRow(rows, n - 1)
  }

  /**
   * On frame n the time text comes from row n and the progress text from
   * the latest row with a remainder (row 0's, possibly empty, if there is
   * none); the progress text is at full opacity exactly when row n has a
   * remainder.
   */
  lemma {:induction false} LabelFromRows(rows: seq<Row>, n: nat)
    requires n < |rows|
    ensures LabelAfter(rows, n).time + Remainder(rows[n].text) == rows[n].text
    ensures LabelAfter(rows, n).progress == Remainder(rows[LastProgressRow(rows, n)].text)
    ensures LabelAfter(rows, n).alpha == if |rows[n].text| > 8 then 1.0 else 0.5
    decreases n
  {
    var text := rows[n].text;
    if |text| <= 8 {
      assert Remainder(text) == [];
      if n > 0 {
        LabelFromRows(rows, n - 1);
      }
    }
  }

  /** What one frame shows: an image with its instant, and the telescope marker. */
  datatype Frame<D> = Frame(data: D, time: int, marker: Coordinates.Pixel)

  /**
   * Frame `n` of the animation: image n // 2 and the marker at row n's
   * altitude and azimuth, through the script's `altaz_to_xy`; a table with
   * fewer rows than frames makes `t["alt"][n]` raise.
   */
  function FrameAt<D>(images: seq<Video.AllSkyImage<D>>, rows: seq<Row>, n: nat, trig: Coordinates.Trig): (f: Option<Frame<D>>)
    requires n < FrameCount(|images|)
    ensures f.Some? <==> n < |rows|
    ensures f.Some? ==> f.value.marker == Coordinates.AltAzToXY(rows[n].alt, rows[n].az, trig)
  {
    if n < |rows| then
      var xy := AltAzToXY([rows[n].alt], [rows[n].az], trig);
      var im := images[n / 2];
      Some(Frame(im.data, im.time, Coordinates.Pixel(xy.0[0], xy.1[0])))
    else None
  }

  /** With every image downloaded, frame n shows the sky at start + 120 (n // 2), before the end of the night. */
  lemma FrameTime<D>(start: int, end: int, images: seq<Video.AllSkyImage<D>>, rows: seq<Row>, n: nat, trig: Coordinates.Trig)
    requires |images| == |Ticks(start, end)|
    requires forall k :: 0 <= k < |images| ==> images[k].time == Ticks(start, end)[k]
    requires n < FrameCount(|images|) && n < |rows|
    ensures var f := FrameAt(images, rows, n, trig).value;
            f.time == start + 120 * (n / 2) && f.time < end && f.data == images[n / 2].data
  {
    TicksSpacing(start, end);
    FrameImages(|images|, n, 0);
    assert Ticks(start, end)[n / 2] == start + 120 * (n / 2) < end;
  }
}

/**
 * The capture loop and frame schedule of `create_video`: from a rounded
 * start instant, images are fetched every 120 seconds until the end
 * instant, a skipped image costing its two one-minute frames; in pointing
 * mode one telemetry row is picked per minute by searching a short window
 * of the telemetry time stamps. The animation then shows
 * `(len(images) - 1) * 2` frames, frame `n` using image `n // 2` and
 * telemetry row `n`.
 *
 * Instants are integer seconds. The HTTP requests, decoding the images,
 * reading the CSV and parsing its time stamps are parameters.
 */
module Video {
  import opened Wrappers
  import opened Strings
  import opened Coordinates
  import Image

  /** One downloaded image and the instant it was taken. */
  datatype AllSkyImage<D> = AllSkyImage(data: D, time: int)

  /** The two ways the capture loop stops with an exception in pointing mode. */
  datatype VideoError =
    | MissingTelemetry  // results[1] of a CSV without a data row
    | EmptyWindow       // np.argmin of an empty window of time stamps

  /** What the capture loop hands to the animation. */
  datatype Capture<D> = Capture(images: seq<AllSkyImage<D>>, pointings: seq<seq<string>>)

  /**
   * What `sub_time` returns for a time stamp after the current instant:
   * the plain number 1000, which astropy compares with the TimeDelta
   * differences as 1000 days.
   */
  const Sentinel: int := 1000 * 86400

  // ---------------------------------------------------------------------------
  // What the loop downloads
  // ---------------------------------------------------------------------------

  /** The images found at t, t + 120, t + 240, ... before `end`, in order. */
  function Downloaded<D>(t: int, end: int, fetch: int -> Option<D>): seq<AllSkyImage<D>>
    decreases end - t
  {
    if t >= end then []
    else (match fetch(t) case Some(d) => [AllSkyImage(d, t)] case None => []) + Downloaded(t + 120, end, fetch)
  }

  /** Every downloaded image was found at its own instant, a whole number of 120-second steps after `t` and before `end`. */
  lemma {:induction false} DownloadedSound<D>(t: int, end: int, fetch: int -> Option<D>, i: nat)
    requires i < |Downloaded(t, end, fetch)|
    ensures var im := Downloaded(t, end, fetch)[i];
            t + 120 * i <= im.time < end && (im.time - t) % 120 == 0 && fetch(im.time) == Some(im.data)
    decreases end - t
  {
    var all := Downloaded(t, end, fetch);
    var rest := Downloaded(t + 120, end, fetch);
    if fetch(t).Some? {
      assert all == [AllSkyImage(fetch(t).value, t)] + rest;
    } else {
      assert all == rest;
    }
    if fetch(t).None? || i > 0 {
      var j := if fetch(t).Some? then i - 1 else i;
      assert all[i] == rest[j];
      DownloadedSound(t + 120, end, fetch, j);
      StepMultiple(rest[j].time - t);
    }
  }

  /** One step of 120 seconds keeps a multiple of 120 a multiple of 120. */
  lemma StepMultiple(d: int)
    requires (d - 120) % 120 == 0
    ensures d % 120 == 0
  {
  }

  /** Downloaded images are at least 120 seconds apart. */
  lemma {:induction false} DownloadedSpaced<D>(t: int, end: int, fetch: int -> Option<D>, i: nat, j: nat)
    requires i < j < |Downloaded(t, end, fetch)|
    ensures Downloaded(t, end, fetch)[i].time + 120 <= Downloaded(t, end, fetch)[j].time
    decreases end - t
  {
    var rest := Downloaded(t + 120, end, fetch);
    if fetch(t).Some? {
      if i == 0 {
        DownloadedSound(t + 120, end, fetch, j - 1);
      } else {
        DownloadedSpaced(t + 120, end, fetch, i - 1, j - 1);
      }
    } else {
      DownloadedSpaced(t + 120, end, fetch, i, j);
    }
  }

  /** Every 120-second instant before `end` whose image was found is downloaded. */
  lemma {:induction false} DownloadedComplete<D>(t: int, end: int, fetch: int -> Option<D>, k: nat)
    requires t + 120 * k < end && fetch(t + 120 * k).Some?
    ensures exists i :: 0 <= i < |Downloaded(t, end, fetch)| && Downloaded(t, end, fetch)[i].time == t + 120 * k
    decreases k
  {
    var all := Downloaded(t, end, fetch);
    if k == 0 {
      assert all[0].time == t;
    } else {
      DownloadedComplete(t + 120, end, fetch, k - 1);
      var rest := Downloaded(t + 120, end, fetch);
      var i :| 0 <= i < |rest| && rest[i].time == t + 120 + 120 * (k - 1);
      var off := if fetch(t).Some? then 1 else 0;
      assert all[i + off] == rest[i];
    }
  }

  // ---------------------------------------------------------------------------
  // When the loop body runs
  // ---------------------------------------------------------------------------

  /**
   * The instants at which the loop goes past the download from `t` on: a
   * found image at `t` and, unless `t + 60` reaches `end`, the odd minute
   * after it; a missing image skips both.
   */
  function IterationTimes<D>(t: int, end: int, fetch: int -> Option<D>): seq<int>
    decreases end - t
  {
    if t >= end then []
    else if fetch(t).None? then IterationTimes(t + 120, end, fetch)
    else [t] + (if t + 60 < end then [t + 60] else []) + IterationTimes(t + 120, end, fetch)
  }

  /** The elements of `s` above `bound`, in order. */
  function After(s: seq<int>, bound: int): (r: seq<int>)
    ensures |r| <= |s|
    decreases |s|
  {
    if |s| == 0 then []
    else After(s[..|s| - 1], bound) + (if s[|s| - 1] > bound then [s[|s| - 1]] else [])
  }

  /**
   * The instants whose telemetry rows make up `pointings`: the start (row 1
   * of the CSV) and then every iteration with `counter > 1`, that is every
   * one more than 60 seconds after the start.
   */
  ghost function SelectionTimes<D>(start: int, end: int, fetch: int -> Option<D>): seq<int> {
    [start] + After(IterationTimes(start, end, fetch), start + 60)
  }

  /** The iterations still to come, given the loop's instant and the parity of its counter. */
  ghost function Remaining<D>(cur: int, odd: bool, end: int, fetch: int -> Option<D>): seq<int> {
    if !odd then IterationTimes(cur, end, fetch)
    else (if cur < end then [cur] else []) + IterationTimes(cur + 60, end, fetch)
  }

  lemma {:induction false} AfterConcat(a: seq<int>, b: seq<int>, bound: int)
    ensures After(a + b, bound) == After(a, bound) + After(b, bound)
    decreases |b|
  {
    if |b| == 0 {
      assert a + b == a;
    } else {
      var b' := b[..|b| - 1];
      assert (a + b)[..|a + b| - 1] == a + b';
      AfterConcat(a, b', bound);
    }
  }

  lemma {:induction false} AfterAbove(s: seq<int>, bound: int)
    requires forall i :: 0 <= i < |s| ==> s[i] > bound
    ensures After(s, bound) == s
    decreases |s|
  {
    if |s| > 0 {
      AfterAbove(s[..|s| - 1], bound);
    }
  }

  lemma {:induction false} AfterBelow(s: seq<int>, bound: int)
    requires forall i :: 0 <= i < |s| ==> s[i] <= bound
    ensures After(s, bound) == []
    decreases |s|
  {
    if |s| > 0 {
      AfterBelow(s[..|s| - 1], bound);
    }
  }

  lemma {:induction false} IterationTimesFrom<D>(t: int, end: int, fetch: int -> Option<D>)
    ensures forall i :: 0 <= i < |IterationTimes(t, end, fetch)| ==> IterationTimes(t, end, fetch)[i] >= t
    decreases end - t
  {
    if t < end {
      IterationTimesFrom(t + 120, end, fetch);
    }
  }

  /** Apart from the last image, every image is followed by its odd minute. */
  lemma {:induction false} IterationCount<D>(t: int, end: int, fetch: int -> Option<D>)
    ensures |IterationTimes(t, end, fetch)| >= 2 * |Downloaded(t, end, fetch)| - 1
    decreases end - t
  {
    if t < end {
      IterationCount(t + 120, end, fetch);
      if fetch(t).Some? && t + 60 >= end {
        assert Downloaded(t + 120, end, fetch) == [];
      }
    }
  }

  /**
   * There are always at least as many telemetry rows as frames, so
   * `pointings[n]` in `update_img` is never out of range.
   */
  lemma SelectionsCoverFrames<D>(start: int, end: int, fetch: int -> Option<D>)
    ensures |SelectionTimes(start, end, fetch)| >= FrameCount(|Downloaded(start, end, fetch)|)
  {
    if start < end {
      var later := IterationTimes(start + 120, end, fetch);
      var rest := Downloaded(start + 120, end, fetch);
      IterationCount(start + 120, end, fetch);
      assert |later| >= 2 * |rest| - 1;
      FirstStep(start, end, fetch);
      assert |SelectionTimes(start, end, fetch)| == 1 + |later|;
    }
  }

  /** The first iteration's one or two minutes are not selected after the start; the rest are. */
  lemma FirstStep<D>(start: int, end: int, fetch: int -> Option<D>)
    requires start < end
    ensures After(IterationTimes(start, end, fetch), start + 60) == IterationTimes(start + 120, end, fetch)
    ensures |Downloaded(start, end, fetch)|
         == |Downloaded(start + 120, end, fetch)| + (if fetch(start).Some? then 1 else 0)
  {
    var later := IterationTimes(start + 120, end, fetch);
    IterationTimesFrom(start + 120, end, fetch);
    AfterAbove(later, start + 60);
    if fetch(start).Some? {
      var first := [start] + (if start + 60 < end then [start + 60] else []);
      assert IterationTimes(start, end, fetch) == first + later;
      AfterConcat(first, later, start + 60);
      AfterBelow(first, start + 60);
    } else {
      assert IterationTimes(start, end, fetch) == later;
    }
  }

  // ---------------------------------------------------------------------------
  // Picking the telemetry row for a minute
  // ---------------------------------------------------------------------------

  /** `sub_time(stamp, cur)`: how long before `cur` the stamp lies, or Sentinel for a stamp after it. */
  function SubTime(stamp: int, cur: int): (d: int)
    ensures d >= 0
    ensures stamp <= cur ==> d == cur - stamp
    ensures stamp > cur ==> d == Sentinel
  {
    if cur - stamp < 0 then Sentinel else cur - stamp
  }

  /** `np.argmin`: the position of the first smallest element. */
  function ArgMin(s: seq<int>): (k: nat)
    requires |s| > 0
    ensures k < |s|
    ensures forall j :: 0 <= j < |s| ==> s[k] <= s[j]
    ensures forall j :: 0 <= j < k ==> s[k] < s[j]
    decreases |s|
  {
    if |s| == 1 then 0
    else
      var k := ArgMin(s[..|s| - 1]);
      assert forall j :: 0 <= j < |s| - 1 ==> s[..|s| - 1][j] == s[j];
      if s[|s| - 1] < s[k] then |s| - 1 else k
  }

  /** The `time_only` array: the parsed stamps of `results[1:-1]`, header and last row dropped. */
  function TimeOnly(results: seq<seq<string>>, parseStamp: seq<string> -> int): (stamps: seq<int>)
    ensures |results| >= 2 ==> |stamps| == |results| - 2
    ensures forall i :: 0 <= i < |stamps| ==> i + 1 < |results| && stamps[i] == parseStamp(results[i + 1])
  {
    var rows := PySlice(results, 1, -1);
    assert forall i :: 0 <= i < |rows| ==> i + 1 < |results| && rows[i] == results[i + 1];
    seq(|rows|, i requires 0 <= i < |rows| => parseStamp(rows[i]))
  }

  /**
   * Lines 136-139: search `time_only[pre + 10 : pre + 30]` for the smallest
   * `sub_time` against `cur` and add `pre + 10` to its position. An empty
   * window is the ValueError of `np.argmin`.
   */
  function NextPre(stamps: seq<int>, pre: nat, cur: int): (r: Option<nat>)
    ensures r.Some? <==> pre + 10 < |stamps|
    ensures r.Some? ==> pre + 10 <= r.value < pre + 30 && r.value < |stamps|
  {
    var window := PySlice(stamps, pre + 10, pre + 30);
    if |window| == 0 then None
    else
      var hi := if pre + 30 <= |stamps| then pre + 30 else |stamps|;
      assert window == stamps[pre + 10..hi];
      var diffs := seq(|window|, i requires 0 <= i < |window| => SubTime(window[i], cur));
      assert forall j :: pre + 10 <= j < hi ==> diffs[j - (pre + 10)] == SubTime(stamps[j], cur);
      Some(ArgMin(diffs) + pre + 10)
  }

  /** The row NextPre picks has the smallest `sub_time` of the window, and is the first with it. */
  lemma NextPreMinimal(stamps: seq<int>, pre: nat, cur: int)
    requires pre + 10 < |stamps|
    ensures var r := NextPre(stamps, pre, cur).value;
            && (forall j :: pre + 10 <= j < pre + 30 && j < |stamps| ==> SubTime(stamps[r], cur) <= SubTime(stamps[j], cur))
            && (forall j :: pre + 10 <= j < r ==> SubTime(stamps[r], cur) < SubTime(stamps[j], cur))
  {
    var hi := if pre + 30 <= |stamps| then pre + 30 else |stamps|;
    var window := PySlice(stamps, pre + 10, pre + 30);
    assert window == stamps[pre + 10..hi];
    var diffs := seq(|window|, i requires 0 <= i < |window| => SubTime(window[i], cur));
    var k := ArgMin(diffs);
    var r := k + pre + 10;
    assert NextPre(stamps, pre, cur).value == r;
    assert diffs[k] == SubTime(stamps[r], cur);
    forall j | pre + 10 <= j < hi ensures SubTime(stamps[r], cur) <= SubTime(stamps[j], cur) {
      assert diffs[j - (pre + 10)] == SubTime(stamps[j], cur);
    }
    forall j | pre + 10 <= j < r ensures SubTime(stamps[r], cur) < SubTime(stamps[j], cur) {
      assert diffs[j - (pre + 10)] == SubTime(stamps[j], cur);
    }
  }

  /** When no stamp of the window is at or before `cur`, every difference is Sentinel and the window's first stamp is taken. */
  lemma NextPreAllLater(stamps: seq<int>, pre: nat, cur: int)
    requires pre + 10 < |stamps|
    requires forall j :: pre + 10 <= j < pre + 30 && j < |stamps| ==> stamps[j] > cur
    ensures NextPre(stamps, pre, cur) == Some(pre + 10)
  {
    NextPreMinimal(stamps, pre, cur);
    var r := NextPre(stamps, pre, cur).value;
    assert SubTime(stamps[pre + 10], cur) == Sentinel;
    assert SubTime(stamps[r], cur) == Sentinel;
  }

  /**
   * Over increasing stamps whose differences before `cur` stay below
   * Sentinel, the row picked is the latest one at or before `cur` in the
   * window.
   */
  lemma NextPreLatestBefore(stamps: seq<int>, pre: nat, cur: int, j: nat)
    requires pre + 10 <= j < pre + 30 && j < |stamps| && stamps[j] <= cur && cur - stamps[pre + 10] < Sentinel
    requires forall a, b :: 0 <= a < b < |stamps| ==> stamps[a] < stamps[b]
    ensures NextPre(stamps, pre, cur).Some?
    ensures var r := NextPre(stamps, pre, cur).value; stamps[r] <= cur && stamps[j] <= stamps[r]
  {
    NextPreMinimal(stamps, pre, cur);
    var r := NextPre(stamps, pre, cur).value;
    assert stamps[pre + 10] <= stamps[j];
    assert SubTime(stamps[r], cur) <= SubTime(stamps[j], cur) < Sentinel;
  }

  /**
   * Whether the chain of searches from `pre` over the instants `times`,
   * each continuing from the row the previous one found, meets no empty
   * window.
   */
  function SearchesFind(stamps: seq<int>, pre: nat, times: seq<int>): bool
    decreases |times|
  {
    |times| == 0 ||
    match NextPre(stamps, pre, times[0])
    case None => false
    case Some(p) => SearchesFind(stamps, p, times[1..])
  }

  /** Every search advances by fewer than 30 stamps, so 30 stamps per search are always enough. */
  lemma {:induction false} SearchesFindLong(stamps: seq<int>, pre: nat, times: seq<int>)
    requires pre + 30 * |times| <= |stamps|
    ensures SearchesFind(stamps, pre, times)
    decreases |times|
  {
    if |times| > 0 {
      var p := NextPre(stamps, pre, times[0]).value;
      SearchesFindLong(stamps, p, times[1..]);
    }
  }

  /** Every search advances by at least 10 stamps, so it fails once fewer than 10 stamps lie ahead for each one. */
  lemma {:induction false} SearchesFindShort(stamps: seq<int>, pre: nat, times: seq<int>)
    requires |times| >= 1 && |stamps| <= pre + 10 * |times|
    ensures !SearchesFind(stamps, pre, times)
    decreases |times|
  {
    var r := NextPre(stamps, pre, times[0]);
    if r.Some? {
      SearchesFindShort(stamps, r.value, times[1..]);
    }
  }

  /** A search that finds `q` hands the rest of the chain on to `q`. */
  lemma SearchesStep(stamps: seq<int>, pre: nat, q: nat, times: seq<int>)
    requires |times| > 0 && NextPre(stamps, pre, times[0]) == Some(q)
    ensures SearchesFind(stamps, pre, times) == SearchesFind(stamps, q, times[1..])
  {
  }

  /** The search from `pre` at `t` finds `q`. */
  ghost predicate StepFinds(stamps: seq<int>, pre: nat, t: int, q: nat) {
    NextPre(stamps, pre, t) == Some(q)
  }

  /** The searches along a chain whose every step is known. */
  ghost predicate ChainOf(stamps: seq<int>, pres: seq<nat>, times: seq<int>) {
    && |pres| == |times|
    && forall k :: 1 <= k < |pres| ==> StepFinds(stamps, pres[k - 1], times[k], pres[k])
  }

  /**
   * Along a chain of searches already made (search k from `pres[k - 1]`
   * at `times[k]` found `pres[k]`), the searches over `times[j + 1..]`
   * followed by `later` succeed exactly when those over `later` do from
   * the last row found.
   */
  lemma {:induction false} SearchesAlongChain(stamps: seq<int>, pres: seq<nat>, times: seq<int>, later: seq<int>, j: nat)
    requires ChainOf(stamps, pres, times) && j < |pres|
    ensures SearchesFind(stamps, pres[j], times[j + 1..] + later) == SearchesFind(stamps, pres[|pres| - 1], later)
    decreases |pres| - j
  {
    if j + 1 < |pres| {
      ChainStep(stamps, pres, times, later, j);
      SearchesAlongChain(stamps, pres, times, later, j + 1);
    } else {
      ChainEnd(times, later, j);
    }
  }

  lemma ChainEnd(times: seq<int>, later: seq<int>, j: nat)
    requires j + 1 == |times|
    ensures times[j + 1..] + later == later
  {
  }

  lemma ChainStep(stamps: seq<int>, pres: seq<nat>, times: seq<int>, later: seq<int>, j: nat)
    requires ChainOf(stamps, pres, times) && j + 1 < |pres|
    ensures SearchesFind(stamps, pres[j], times[j + 1..] + later) == SearchesFind(stamps, pres[j + 1], times[j + 2..] + later)
  {
    var rest := times[j + 1..] + later;
    assert rest[0] == times[j + 1] && rest[1..] == times[j + 2..] + later;
    assert StepFinds(stamps, pres[j], times[j + 1], pres[j + 1]);
    SearchesStep(stamps, pres[j], pres[j + 1], rest);
  }

  /**
   * The telemetry row appended for a search is CSV row `pres[k]`, whose
   * stamp is `time_only[pres[k] - 1]`: the row just before the one whose
   * stamp the search chose.
   */
  lemma PickedRowStamp(results: seq<seq<string>>, parseStamp: seq<string> -> int, rows: seq<seq<string>>,
                       pres: seq<nat>, times: seq<int>, k: nat)
    requires Chosen(rows, pres, times, results, TimeOnly(results, parseStamp))
    requires 1 <= k < |rows|
    ensures 10 <= pres[k] < |TimeOnly(results, parseStamp)|
    ensures parseStamp(rows[k]) == TimeOnly(results, parseStamp)[pres[k] - 1]
  {
    var stamps := TimeOnly(results, parseStamp);
    assert NextPre(stamps, pres[k - 1], times[k]) == Some(pres[k]);
    var i := pres[k] - 1;
    assert i + 1 < |results| && stamps[i] == parseStamp(results[i + 1]);
  }

  /**
   * The state of the capture loop at instant `cur` with counter `counter`:
   * `images` and the Downloaded images still ahead make up all of them,
   * and `done` and the Remaining iterations make up all iterations.
   */
  ghost predicate Progress<D>(start: int, end: int, fetch: int -> Option<D>, cur: int, counter: nat,
                              images: seq<AllSkyImage<D>>, done: seq<int>) {
    && cur == start + 60 * counter
    && images + Downloaded(if counter % 2 == 1 then cur + 60 else cur, end, fetch) == Downloaded(start, end, fetch)
    && done + Remaining(cur, counter % 2 == 1, end, fetch) == IterationTimes(start, end, fetch)
  }

  /** A missing image at an even counter skips two minutes and adds nothing. */
  lemma ProgressMissing<D>(start: int, end: int, fetch: int -> Option<D>, cur: int, counter: nat,
                           images: seq<AllSkyImage<D>>, done: seq<int>)
    requires Progress(start, end, fetch, cur, counter, images, done)
    requires cur < end && counter % 2 == 0 && fetch(cur).None?
    ensures Progress(start, end, fetch, cur + 120, counter + 2, images, done)
  {
    assert (counter + 2) % 2 == 0;
    assert Downloaded(cur, end, fetch) == Downloaded(cur + 120, end, fetch);
    assert Remaining(cur, false, end, fetch) == Remaining(cur + 120, false, end, fetch);
  }

  /** A found image at an even counter is appended, and the minute is done. */
  lemma ProgressFound<D>(start: int, end: int, fetch: int -> Option<D>, cur: int, counter: nat,
                         images: seq<AllSkyImage<D>>, done: seq<int>)
    requires Progress(start, end, fetch, cur, counter, images, done)
    requires cur < end && counter % 2 == 0 && fetch(cur).Some?
    ensures Progress(start, end, fetch, cur + 60, counter + 1, images + [AllSkyImage(fetch(cur).value, cur)], done + [cur])
  {
    var c, n := counter + 1, cur + 60;
    assert c % 2 == 1;
    assert (if c % 2 == 1 then n + 60 else n) == cur + 120;
    ImagesFound(start, end, fetch, cur, images);
    DoneFound(start, end, fetch, cur, done);
  }

  lemma ImagesFound<D>(start: int, end: int, fetch: int -> Option<D>, cur: int, images: seq<AllSkyImage<D>>)
    requires images + Downloaded(cur, end, fetch) == Downloaded(start, end, fetch)
    requires cur < end && fetch(cur).Some?
    ensures (images + [AllSkyImage(fetch(cur).value, cur)]) + Downloaded(cur + 120, end, fetch) == Downloaded(start, end, fetch)
  {
    var image := AllSkyImage(fetch(cur).value, cur);
    var later := Downloaded(cur + 120, end, fetch);
    assert Downloaded(cur, end, fetch) == [image] + later;
    assert (images + [image]) + later == images + ([image] + later);
  }

  lemma DoneFound<D>(start: int, end: int, fetch: int -> Option<D>, cur: int, done: seq<int>)
    requires done + IterationTimes(cur, end, fetch) == IterationTimes(start, end, fetch)
    requires cur < end && fetch(cur).Some?
    ensures (done + [cur]) + Remaining(cur + 60, true, end, fetch) == IterationTimes(start, end, fetch)
  {
    FoundTimes(cur, end, fetch);
    Associative(done, [cur], Remaining(cur + 60, true, end, fetch));
  }

  /** A found image starts its minute and the following one. */
  lemma FoundTimes<D>(cur: int, end: int, fetch: int -> Option<D>)
    requires cur < end && fetch(cur).Some?
    ensures IterationTimes(cur, end, fetch) == [cur] + Remaining(cur + 60, true, end, fetch)
  {
    var mid: seq<int> := if cur + 60 < end then [cur + 60] else [];
    var tail := IterationTimes(cur + 120, end, fetch);
    assert IterationTimes(cur, end, fetch) == [cur] + mid + tail;
    assert Remaining(cur + 60, true, end, fetch) == mid + tail;
  }

  lemma Associative<T>(a: seq<T>, b: seq<T>, c: seq<T>)
    ensures (a + b) + c == a + (b + c)
  {
  }

  /** An odd counter downloads nothing; the minute is done. */
  lemma ProgressOdd<D>(start: int, end: int, fetch: int -> Option<D>, cur: int, counter: nat,
                       images: seq<AllSkyImage<D>>, done: seq<int>)
    requires Progress(start, end, fetch, cur, counter, images, done)
    requires cur < end && counter % 2 == 1
    ensures Progress(start, end, fetch, cur + 60, counter + 1, images, done + [cur])
  {
    assert (counter + 1) % 2 == 0;
    assert Remaining(cur, true, end, fetch) == [cur] + Remaining(cur + 60, false, end, fetch);
    assert done + [cur] + Remaining(cur + 60, false, end, fetch) == IterationTimes(start, end, fetch);
  }

  /** Once `cur` reaches `end`, everything has been downloaded and every iteration done. */
  lemma ProgressFinished<D>(start: int, end: int, fetch: int -> Option<D>, cur: int, counter: nat,
                            images: seq<AllSkyImage<D>>, done: seq<int>)
    requires Progress(start, end, fetch, cur, counter, images, done)
    requires cur >= end
    ensures images == Downloaded(start, end, fetch)
    ensures done == IterationTimes(start, end, fetch)
  {
    assert Downloaded(if counter % 2 == 1 then cur + 60 else cur, end, fetch) == [];
    assert Remaining(cur, counter % 2 == 1, end, fetch) == [];
    assert images + [] == images;
    assert done + [] == done;
  }

  // ---------------------------------------------------------------------------
  // The capture loop
  // ---------------------------------------------------------------------------

  /**
   * The telemetry rows picked so far: row 1 for the start, then for each
   * later instant `times[k]` the row `pres[k]` that NextPre finds from
   * `pres[k - 1]`, the first search starting from 0.
   */
  ghost predicate Chosen(rows: seq<seq<string>>, pres: seq<nat>, times: seq<int>, results: seq<seq<string>>, stamps: seq<int>) {
    && |rows| == |pres| == |times| >= 1
    && |results| >= 2 && rows[0] == results[1] && pres[0] == 0
    && forall k :: 1 <= k < |rows| ==>
         pres[k] < |results| && rows[k] == results[pres[k]]
         && NextPre(stamps, pres[k - 1], times[k]) == Some(pres[k])
  }

  lemma ChosenAppend(rows: seq<seq<string>>, pres: seq<nat>, times: seq<int>, results: seq<seq<string>>, stamps: seq<int>, cur: int)
    requires Chosen(rows, pres, times, results, stamps)
    requires |stamps| <= |results|
    requires NextPre(stamps, pres[|pres| - 1], cur).Some?
    ensures var p := NextPre(stamps, pres[|pres| - 1], cur).value;
            p < |results| && Chosen(rows + [results[p]], pres + [p], times + [cur], results, stamps)
  {
    var last := pres[|pres| - 1];
    var r := NextPre(stamps, last, cur);
    var p := r.value;
    assert p < |stamps| <= |results|;
    var rows', pres', times' := rows + [results[p]], pres + [p], times + [cur];
    forall k | 1 <= k < |rows'|
      ensures pres'[k] < |results| && rows'[k] == results[pres'[k]] && NextPre(stamps, pres'[k - 1], times'[k]) == Some(pres'[k])
    {
      if k < |rows| {
        assert rows'[k] == rows[k] && pres'[k] == pres[k] && pres'[k - 1] == pres[k - 1] && times'[k] == times[k];
      } else {
        assert rows'[k] == results[p] && pres'[k] == p && pres'[k - 1] == last && times'[k] == cur;
        assert r == Some(p);
      }
    }
    assert rows'[0] == rows[0] && pres'[0] == pres[0];
  }

  /** The pointing state of the loop after the iterations `done`: one row per selection instant, the last search ending at `pre`. */
  ghost predicate Picked(start: int, results: seq<seq<string>>, stamps: seq<int>, pointings: seq<seq<string>>,
                         pres: seq<nat>, times: seq<int>, done: seq<int>, pre: nat) {
    && |stamps| <= |results|
    && times == [start] + After(done, start + 60)
    && Chosen(pointings, pres, times, results, stamps)
    && pre == pres[|pres| - 1]
  }

  /** An iteration more than 60 seconds after the start picks the row NextPre finds. */
  lemma PickedNext(start: int, results: seq<seq<string>>, stamps: seq<int>, pointings: seq<seq<string>>,
                   pres: seq<nat>, times: seq<int>, done: seq<int>, pre: nat, cur: int)
    requires Picked(start, results, stamps, pointings, pres, times, done, pre)
    requires cur > start + 60 && NextPre(stamps, pre, cur).Some?
    ensures var p := NextPre(stamps, pre, cur).value;
            p < |results| && Picked(start, results, stamps, pointings + [results[p]], pres + [p], times + [cur], done + [cur], p)
  {
    ChosenAppend(pointings, pres, times, results, stamps, cur);
    AfterConcat(done, [cur], start + 60);
  }

  /** An iteration within 60 seconds of the start picks nothing. */
  lemma PickedNone(start: int, results: seq<seq<string>>, stamps: seq<int>, pointings: seq<seq<string>>,
                   pres: seq<nat>, times: seq<int>, done: seq<int>, pre: nat, cur: int)
    requires Picked(start, results, stamps, pointings, pres, times, done, pre)
    requires cur <= start + 60
    ensures Picked(start, results, stamps, pointings, pres, times, done + [cur], pre)
  {
    AfterConcat(done, [cur], start + 60);
  }

  /** When the loop ends, the image list is complete and, in pointing mode, so are the rows, one per frame at least. */
  lemma CaptureDone<D>(start: int, end: int, fetch: int -> Option<D>, cur: int, counter: nat, images: seq<AllSkyImage<D>>,
                       done: seq<int>, pointing: bool, results: seq<seq<string>>, stamps: seq<int>,
                       pointings: seq<seq<string>>, pres: seq<nat>, times: seq<int>, pre: nat)
    requires Progress(start, end, fetch, cur, counter, images, done) && cur >= end
    requires pointing ==> Picked(start, results, stamps, pointings, pres, times, done, pre)
    ensures images == Downloaded(start, end, fetch)
    ensures pointing ==> && times == SelectionTimes(start, end, fetch)
                         && Chosen(pointings, pres, times, results, stamps)
                         && |pointings| >= FrameCount(|images|)
                         && SearchesFind(stamps, 0, SelectionTimes(start, end, fetch)[1..])
  {
    ProgressFinished(start, end, fetch, cur, counter, images, done);
    if pointing {
      SelectionsCoverFrames(start, end, fetch);
      ChosenChain(pointings, pres, times, results, stamps);
      SearchesAlongChain(stamps, pres, times, [], 0);
      assert times[1..] + [] == times[1..];
    }
  }

  /**
   * A search that meets an empty window at iteration `cur` means that the
   * searches along all SelectionTimes do not succeed.
   */
  lemma CaptureFails<D>(start: int, end: int, fetch: int -> Option<D>, cur: int, counter: nat,
                        done: seq<int>, results: seq<seq<string>>, stamps: seq<int>,
                        pointings: seq<seq<string>>, pres: seq<nat>, times: seq<int>, pre: nat)
    requires done + Remaining(cur, counter % 2 == 1, end, fetch) == IterationTimes(start, end, fetch)
    requires Picked(start, results, stamps, pointings, pres, times, done, pre)
    requires start + 60 < cur < end && (counter % 2 == 1 || fetch(cur).Some?)
    requires NextPre(stamps, pre, cur).None?
    ensures !SearchesFind(stamps, 0, SelectionTimes(start, end, fetch)[1..])
  {
    var bound := start + 60;
    var rem := Remaining(cur, counter % 2 == 1, end, fetch);
    RemainingStarts(cur, counter % 2 == 1, end, fetch);
    AfterHead(rem, bound);
    var ahead := After(rem, bound);
    assert !SearchesFind(stamps, pre, ahead);
    SelectionSplit(start, end, fetch, done, rem, times);
    ChosenChain(pointings, pres, times, results, stamps);
    SearchesAlongChain(stamps, pres, times, ahead, 0);
  }

  lemma ChosenChain(rows: seq<seq<string>>, pres: seq<nat>, times: seq<int>, results: seq<seq<string>>, stamps: seq<int>)
    requires Chosen(rows, pres, times, results, stamps)
    ensures ChainOf(stamps, pres, times)
  {
    forall k | 1 <= k < |pres| ensures StepFinds(stamps, pres[k - 1], times[k], pres[k]) {
      assert NextPre(stamps, pres[k - 1], times[k]) == Some(pres[k]);
    }
  }

  /** An iteration that goes past the download at `cur` is the first of those remaining. */
  lemma RemainingStarts<D>(cur: int, odd: bool, end: int, fetch: int -> Option<D>)
    requires cur < end && (odd || fetch(cur).Some?)
    ensures |Remaining(cur, odd, end, fetch)| > 0 && Remaining(cur, odd, end, fetch)[0] == cur
  {
    if !odd {
      FoundTimes(cur, end, fetch);
    }
  }

  /** A sequence whose first element is above the bound keeps it first. */
  lemma AfterHead(s: seq<int>, bound: int)
    requires |s| > 0 && s[0] > bound
    ensures |After(s, bound)| > 0 && After(s, bound)[0] == s[0] && After(s, bound)[1..] == After(s[1..], bound)
  {
    assert s == [s[0]] + s[1..];
    AfterConcat([s[0]], s[1..], s[0] - 1);
    AfterConcat([s[0]], s[1..], bound);
    assert [s[0]][..0] == [];
    assert After([s[0]], bound) == [s[0]];
  }

  /** The selection instants after the start are those of the iterations done, then those of the ones remaining. */
  lemma SelectionSplit<D>(start: int, end: int, fetch: int -> Option<D>, done: seq<int>, rem: seq<int>, times: seq<int>)
    requires done + rem == IterationTimes(start, end, fetch)
    requires times == [start] + After(done, start + 60)
    ensures SelectionTimes(start, end, fetch)[1..] == times[1..] + After(rem, start + 60)
  {
    AfterConcat(done, rem, start + 60);
  }

  /**
   * Lines 135-140 of `create_video`: the search from `pre` at `cur`, and on
   * success the row it finds appended. An empty window leaves everything as it was.
   */
  method PickRow(ghost start: int, results: seq<seq<string>>, stamps: seq<int>, pointings: seq<seq<string>>,
                 ghost pres: seq<nat>, ghost times: seq<int>, ghost done: seq<int>, pre: nat, cur: int)
    returns (found: bool, pre': nat, pointings': seq<seq<string>>, ghost pres': seq<nat>, ghost times': seq<int>)
    requires Picked(start, results, stamps, pointings, pres, times, done, pre) && cur > start + 60
    ensures found <==> NextPre(stamps, pre, cur).Some?
    ensures !found ==> pre' == pre && pointings' == pointings && pres' == pres && times' == times
    ensures found ==> && pre' == NextPre(stamps, pre, cur).value
                      && Picked(start, results, stamps, pointings', pres', times', done + [cur], pre')
  {
    var next := NextPre(stamps, pre, cur);
    if next.None? {
      return false, pre, pointings, pres, times;
    }
    PickedNext(start, results, stamps, pointings, pres, times, done, pre, cur);
    pre' := next.value;
    pointings' := pointings + [results[pre']];
    pres' := pres + [pre'];
    times' := times + [cur];
    found := true;
  }

  /**
   * Lines 77-143 of `create_video`, from the rounded `start` on. `fetch(t)`
   * is the image served for instant `t`, `None` when PIL cannot identify
   * the response; `results` is the telemetry CSV and `parseStamp` the
   * instant of one of its rows. On success the images are exactly
   * Downloaded(start, end, fetch); in pointing mode the rows are row 1 and
   * then the rows chosen by NextPre at the SelectionTimes, each search
   * continuing from the previous one, and there is one for every frame.
   */
  method CaptureImages<D>(start: int, end: int, fetch: int -> Option<D>, pointing: bool,
                          results: seq<seq<string>>, parseStamp: seq<string> -> int)
    returns (r: Result<Capture<D>, VideoError>, ghost pres: seq<nat>, ghost times: seq<int>)
    ensures !pointing ==> r.Success? && r.value.pointings == []
    ensures pointing && |results| < 2 ==> r == Failure(MissingTelemetry)
    ensures pointing && |results| >= 2 ==>
              (r.Success? <==> SearchesFind(TimeOnly(results, parseStamp), 0, SelectionTimes(start, end, fetch)[1..]))
    ensures r.Failure? && |results| >= 2 ==> r.error == EmptyWindow
    ensures r.Success? ==> r.value.images == Downloaded(start, end, fetch)
    ensures r.Success? && pointing ==>
              && times == SelectionTimes(start, end, fetch)
              && Chosen(r.value.pointings, pres, times, results, TimeOnly(results, parseStamp))
              && |r.value.pointings| >= FrameCount(|r.value.images|)
  {
    var stamps: seq<int> := [];
    if pointing {
      if |results| < 2 {
        return Failure(MissingTelemetry), [0], [start];
      }
      stamps := TimeOnly(results, parseStamp);
    }
    r, pres, times := CaptureLoop(start, end, fetch, pointing, results, stamps);
  }

  /** The `while` loop of `create_video`, given the parsed `time_only` stamps in pointing mode. */
  method CaptureLoop<D>(start: int, end: int, fetch: int -> Option<D>, pointing: bool,
                        results: seq<seq<string>>, stamps: seq<int>)
    returns (r: Result<Capture<D>, VideoError>, ghost pres: seq<nat>, ghost times: seq<int>)
    requires pointing ==> |results| >= 2 && |stamps| <= |results|
    ensures !pointing ==> r.Success? && r.value.pointings == []
    ensures pointing ==> (r.Success? <==> SearchesFind(stamps, 0, SelectionTimes(start, end, fetch)[1..]))
    ensures r.Failure? ==> r.error == EmptyWindow
    ensures r.Success? ==> r.value.images == Downloaded(start, end, fetch)
    ensures r.Success? && pointing ==>
              && times == SelectionTimes(start, end, fetch)
              && Chosen(r.value.pointings, pres, times, results, stamps)
              && |r.value.pointings| >= FrameCount(|r.value.images|)
  {
    pres, times := [0], [start];
    var pointings: seq<seq<string>> := if pointing then [results[1]] else [];
    var images: seq<AllSkyImage<D>> := [];
    var cur := start;
    var counter: nat := 0;
    var pre: nat := 0;
    ghost var done: seq<int> := [];
    while cur < end
      invariant cur == start + 60 * counter
      invariant Progress(start, end, fetch, cur, counter, images, done)
      invariant !pointing ==> pointings == []
      invariant pointing ==> Picked(start, results, stamps, pointings, pres, times, done, pre)
      decreases end - cur
    {
      ghost var ahead := Remaining(cur, counter % 2 == 1, end, fetch);
      assert done + ahead == IterationTimes(start, end, fetch);
      if counter % 2 == 0 && fetch(cur).None? {
        // The image at an even counter is missing: skip its two minutes.
        ProgressMissing(start, end, fetch, cur, counter, images, done);
        counter := counter + 2;
        cur := cur + 120;
      } else {
        if counter % 2 == 0 {
          ProgressFound(start, end, fetch, cur, counter, images, done);
          images := images + [AllSkyImage(fetch(cur).value, cur)];
        } else {
          ProgressOdd(start, end, fetch, cur, counter, images, done);
        }
        if pointing && counter > 1 {
          var found;
          found, pre, pointings, pres, times := PickRow(start, results, stamps, pointings, pres, times, done, pre, cur);
          if !found {
            CaptureFails(start, end, fetch, cur, counter, done, results, stamps, pointings, pres, times, pre);
            return Failure(EmptyWindow), pres, times;
          }
        } else if pointing {
          PickedNone(start, results, stamps, pointings, pres, times, done, pre, cur);
        }
        done := done + [cur];
        counter := counter + 1;
        cur := cur + 60;
      }
    }
    CaptureDone(start, end, fetch, cur, counter, images, done, pointing, results, stamps, pointings, pres, times, pre);
    r := Success(Capture(images, pointings));
  }

  // ---------------------------------------------------------------------------
  // The frames of the animation
  // ---------------------------------------------------------------------------

  /** `(len(images) - 1) * 2`: two one-minute frames per image except the last. */
  function FrameCount(imageCount: nat): int {
    (imageCount - 1) * 2
  }

  /** Frame `n` shows image `n // 2`, at its own instant for even `n` and 60 seconds later for odd `n`. */
  function FrameTime<D>(images: seq<AllSkyImage<D>>, n: nat): int
    requires n < FrameCount(|images|)
  {
    images[n / 2].time + (if n % 2 == 1 then 60 else 0)
  }

  /** Both the image and the one after it exist for every frame. */
  lemma FrameImageInRange(imageCount: nat, n: nat)
    requires n < FrameCount(imageCount)
    ensures n / 2 + 1 < imageCount
  {
  }

  /** Over the downloaded images, frame instants increase, stay in [start, end), and are 60 seconds apart within an image. */
  lemma FrameTimesIncrease<D>(start: int, end: int, fetch: int -> Option<D>, n: nat)
    requires n + 1 < FrameCount(|Downloaded(start, end, fetch)|)
    ensures var images := Downloaded(start, end, fetch);
            start <= FrameTime(images, n) < FrameTime(images, n + 1) < end
    ensures n % 2 == 0 ==> FrameTime(Downloaded(start, end, fetch), n + 1) == FrameTime(Downloaded(start, end, fetch), n) + 60
  {
    var images := Downloaded(start, end, fetch);
    DownloadedSound(start, end, fetch, n / 2);
    DownloadedSound(start, end, fetch, (n + 1) / 2);
    DownloadedSound(start, end, fetch, n / 2 + 1);
    DownloadedSpaced(start, end, fetch, n / 2, n / 2 + 1);
  }

  /**
   * The clock of frame `n` (lines 207-213): the frame's instant shifted
   * back by Image.LocalOffsetSeconds before printing.
   */
  function FrameLabel<D>(images: seq<AllSkyImage<D>>, n: nat, iso: int -> string): (text: Option<string>)
    requires n < FrameCount(|images|)
    ensures text.Some? <==> ' ' in iso(FrameTime(images, n) - Image.LocalOffsetSeconds)
  {
    Image.ClockLabel(FrameTime(images, n), iso)
  }

  /**
   * With every image found, frame `n` shows the hour and minute of the
   * instant start + 60 n printed seven hours earlier.
   */
  lemma FrameLabelAllFound<D>(start: int, end: int, fetch: int -> Option<D>, n: nat, iso: int -> string,
                              year: string, month: string, day: string, hour: string, minute: string, second: string, frac: string)
    requires forall u :: fetch(u).Some?
    requires n < FrameCount(|Downloaded(start, end, fetch)|)
    requires Image.IsoFields(year, month, day, hour, minute, second, frac)
    requires iso(start + 60 * n - 7 * 3600) == Image.Iso(year, month, day, hour, minute, second, frac)
    ensures FrameLabel(Downloaded(start, end, fetch), n, iso) == Some(hour + ":" + minute + " Local")
  {
    var images := Downloaded(start, end, fetch);
    DownloadedAllFound(start, end, fetch, n / 2);
    assert n == 2 * (n / 2) + n % 2;
    assert FrameTime(images, n) == start + 60 * n;
    Image.ClockLabelOfIso(start + 60 * n, iso, year, month, day, hour, minute, second, frac);
  }

  /**
   * The telescope marker of frame `n` (line 217): telemetry row `n` through
   * `altaz_to_xy`, `None` where `float` or the indexing raises.
   */
  function FrameMarker(pointings: seq<seq<string>>, n: nat, parseFloat: string -> Option<real>, trig: Trig): (p: Option<Pixel>)
    requires n < |pointings|
    ensures p.Some? <==> |pointings[n]| >= 3 && parseFloat(pointings[n][1]).Some? && parseFloat(pointings[n][2]).Some?
    ensures p.Some? ==> p.value == AltAzToXY(parseFloat(pointings[n][1]).value, parseFloat(pointings[n][2]).value, trig)
  {
    Image.RowMarker(pointings[n], parseFloat, trig)
  }

  // ---------------------------------------------------------------------------
  // When every image is there
  // ---------------------------------------------------------------------------

  /** The instants t, t + 60, t + 120, ... before `end`. */
  function Minutes(t: int, end: int): seq<int>
    decreases end - t
  {
    if t >= end then [] else [t] + Minutes(t + 60, end)
  }

  lemma {:induction false} MinutesFrom(t: int, end: int)
    ensures forall i :: 0 <= i < |Minutes(t, end)| ==> Minutes(t, end)[i] >= t
    decreases end - t
  {
    if t < end {
      MinutesFrom(t + 60, end);
    }
  }

  lemma {:induction false} MinutesIndex(t: int, end: int, i: nat)
    requires t + 60 * i < end
    ensures i < |Minutes(t, end)| && Minutes(t, end)[i] == t + 60 * i
    decreases i
  {
    if i > 0 {
      MinutesIndex(t + 60, end, i - 1);
    }
  }

  lemma {:induction false} IterationTimesAllFound<D>(t: int, end: int, fetch: int -> Option<D>)
    requires forall u :: fetch(u).Some?
    ensures IterationTimes(t, end, fetch) == Minutes(t, end)
    decreases end - t
  {
    if t < end {
      IterationTimesAllFound(t + 120, end, fetch);
      if t + 60 < end {
        assert Minutes(t + 60, end) == [t + 60] + Minutes(t + 120, end);
      }
    }
  }

  lemma {:induction false} DownloadedAllFound<D>(t: int, end: int, fetch: int -> Option<D>, i: nat)
    requires forall u :: fetch(u).Some?
    requires i < |Downloaded(t, end, fetch)|
    ensures Downloaded(t, end, fetch)[i].time == t + 120 * i
    decreases i
  {
    if i > 0 {
      DownloadedAllFound(t + 120, end, fetch, i - 1);
    }
  }

  /** Of the minutes from `t` on, those after t + 60 are the minutes from t + 120 on. */
  lemma AfterMinutes(t: int, end: int)
    ensures After(Minutes(t, end), t + 60) == Minutes(t + 120, end)
  {
    var later := Minutes(t + 120, end);
    MinutesFrom(t + 120, end);
    AfterAbove(later, t + 60);
    if t + 60 < end {
      assert Minutes(t + 60, end) == [t + 60] + later;
      assert Minutes(t, end) == [t, t + 60] + later;
      AfterConcat([t, t + 60], later, t + 60);
      AfterBelow([t, t + 60], t + 60);
    } else if t < end {
      assert Minutes(t + 60, end) == [];
      assert Minutes(t, end) == [t];
      AfterBelow([t], t + 60);
    } else {
      assert Minutes(t, end) == [];
    }
  }

  /** With every image found, the rows are picked for the start and then for every minute from start + 120 on. */
  lemma SelectionTimesAllFound<D>(start: int, end: int, fetch: int -> Option<D>)
    requires forall u :: fetch(u).Some?
    ensures SelectionTimes(start, end, fetch) == [start] + Minutes(start + 120, end)
  {
    IterationTimesAllFound(start, end, fetch);
    AfterMinutes(start, end);
  }

  /**
   * With every image found, frame `n` is at start + 60 n, but its telemetry
   * row (n >= 1) was chosen for the instant one minute later: the first
   * search runs at counter 2, so the minute of counter 1 gets no row of its
   * own.
   */
  lemma TelemetryLeadsFrames<D>(start: int, end: int, fetch: int -> Option<D>, n: nat)
    requires forall u :: fetch(u).Some?
    requires 1 <= n < FrameCount(|Downloaded(start, end, fetch)|)
    ensures FrameTime(Downloaded(start, end, fetch), n) == start + 60 * n
    ensures n < |SelectionTimes(start, end, fetch)|
    ensures SelectionTimes(start, end, fetch)[n] == FrameTime(Downloaded(start, end, fetch), n) + 60
  {
    var images := Downloaded(start, end, fetch);
    DownloadedAllFound(start, end, fetch, n / 2);
    var last := |images| - 1;
    DownloadedAllFound(start, end, fetch, last);
    DownloadedSound(start, end, fetch, last);
    assert start + 120 + 60 * (n - 1) < end;
    SelectionTimesAllFound(start, end, fetch);
    MinutesIndex(start + 120, end, n - 1);
  }
}

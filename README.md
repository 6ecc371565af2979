# desipoint in Dafny

A model of the Python `desipoint` package and its driver scripts. They
overlay sky features on the Kitt Peak Spacewatch all-sky camera's fisheye
images: the telescope's pointing, the DESI survey footprint, the Milky Way
and the ecliptic. The model covers five parts.

- **Projection** (`coordinates.dfy`, `interp.dfy`). `altaz_to_xy` turns
  altitude into an image radius by interpolating in the 11-node calibration
  table, the way `np.interp` does. It rotates the azimuth by 0.1 degree and
  places the point around the off-centre zenith pixel (514, 515).
  `radec_to_xy` composes this with the sky transformation. `trim` replaces
  every point farther than 504 pixels from (512, 512) with NaN. Proved:
  - the radius is exact at the nodes, clamped to 0 and 510 beyond them,
    monotone, and linear between nodes;
  - projected points lie on the circle of that radius around the zenith
    pixel;
  - `trim` keeps exactly the points on the disk;
  - every point on or above the horizon survives `trim`, and every point
    5 degrees or more below it is trimmed.
- **Feature loaders** (`io.dfy`). The ecliptic keeps the indices whose
  last decimal digit is 2 to 5; proved: which samples, how many, in what
  order. The Milky Way keeps every sixth sample. The RA/Dec lists are split
  from the pairs, projected and trimmed; the survey polygons are projected
  but not trimmed.
- **Single image** (`image.dfy`, `strings.dfy`).
  - The requested instant is rounded up to the next even minute, with the
    seconds set to 05.000.
  - The file name `YYYYMMDD_HHMMSS.jpg` and the URL
    `base/YYYY/MM/DD/name` are built from astropy's ISO string by
    `str.replace` and `str.split`.
  - The telescope marker comes from row 1, columns 1 and 2, of the
    telemetry CSV.
  - The clock label is the hour and minute of the instant seven hours
    earlier (UTC - 7 h), followed by " Local".
  - The date stamp is the ISO date without its dashes.

  The Python slicing, `int()`, `str()`, `replace` and `split` semantics
  these steps rely on are modelled in `strings.dfy`.
- **Video** (`video.dfy`). `create_video`'s capture loop advances 60
  seconds per iteration with a counter. It downloads only on even
  counters, and a missing image skips two minutes. In pointing mode, every
  iteration whose counter is above 1 runs a search. That is the third
  iteration, or the second when the first image is missing. The search
  takes a window of up to 20 telemetry stamps, 10 to 30 entries past the
  previous one. Among stamps at or before the current instant, it finds the
  one with the smallest lag; stamps after the instant count as 1000 days.
  It then appends the CSV row just before that stamp's row. The loop fails
  exactly when some search meets an empty window. The animation shows
  `(len(images) - 1) * 2` frames; frame `n` shows image `n // 2` and
  telemetry row `n`. Proved:
  - the images are exactly those found at start + 120 k before the end,
    spaced at least 120 seconds;
  - every row is picked by the window search from the previous one;
  - there are at least as many rows as frames, so `pointings[n]` never
    fails;
  - frame instants increase.

  One consequence is proved as stated behaviour (`TelemetryLeadsFrames`).
  When every image is found, frame `n >= 1` is at start + 60 n, but its
  row was chosen for the instant one minute later. The first search runs
  at counter 2, so the minute of counter 1 gets no row of its own.
- **The older stand-alone script** `desipoint.py` (`legacy.dfy`). Its copies
  of the table, `altaz_to_xy` (over whole arrays) and `radec_to_xy` are
  proved equal to the package's. Its `trim` works on copies of its arrays
  and leaves them untouched. The script differs from the package in four
  ways:
  - it reads from the older `noao.edu` server;
  - it downloads one image every 120 seconds and fails on the first
    unreadable one;
  - it shows `len(images) * 2 - 1` frames;
  - it draws a two-part label from the night's table row `n` on each frame.

Model choices:
- Reals stand for floating point.
- Instants are integer seconds.
- NaN is `None`.
- Sine and cosine of an angle in degrees are a parameter (`Coordinates.Trig`).
  The lemmas that need them assume only sin² + cos² = 1 and the values at 0.
- The astropy sky transformation is a parameter (`Coordinates.SkyTransform`).
- So are the download of a page, astropy's printing of an instant and the
  parsing of CSV cells.

## Model

| member | source | states |
|---|---|---|
| Coordinates.TablesOrdered | desipoint/coordinates.py:5-6 | both tables have 11 entries; zenith angles and radii strictly increase; radii run from 0 to 510 |
| Coordinates.Radius | desipoint/coordinates.py:74 | the interpolated radius always lies in [0, 510] |
| Coordinates.RadiusAtNodes | desipoint/coordinates.py:5-6 | at each node's zenith angle the radius is that node's radius: zenith 0, horizon 480, 5 degrees below 510 |
| Coordinates.RadiusClamped | desipoint/coordinates.py:74 | altitudes at or above 90 give radius 0; altitudes at or below -5 give 510 |
| Coordinates.RadiusMonotone | desipoint/coordinates.py:74 | a lower altitude never gives a smaller radius, and strictly a larger one for altitudes in [-5, 90] |
| Coordinates.RadiusLinear | desipoint/coordinates.py:74 | between neighbouring nodes the radius is the chord through them |
| Interpolation.InterpAtNode | desipoint/coordinates.py:74 | `np.interp` at a sample point gives that sample's value |
| Interpolation.InterpClamped | desipoint/coordinates.py:74 | below the first sample point the first value, above the last the last value |
| Interpolation.InterpBounds | desipoint/coordinates.py:74 | with nondecreasing values the result stays between the first and last value |
| Interpolation.InterpMonotone | desipoint/coordinates.py:74 | with nondecreasing values interpolation is nondecreasing |
| Interpolation.InterpStrictlyMonotone | desipoint/coordinates.py:74 | with increasing values interpolation is increasing inside the sampled range |
| Interpolation.InterpLinear | desipoint/coordinates.py:74 | between neighbouring sample points the value is on the chord through them |
| Coordinates.ZenithPixel | desipoint/coordinates.py:79-90 | every azimuth at altitude 90 or more maps to the zenith pixel (514, 515) |
| Coordinates.RotatedNorth | desipoint/coordinates.py:75-90 | the 0.1 degree rotation: azimuth -0.1 maps straight up from the zenith pixel, to (514, 515 - r) |
| Coordinates.OnZenithCircle | desipoint/coordinates.py:74-90 | the projected point lies exactly on the circle of the interpolated radius around (514, 515) |
| Coordinates.PolarOnCircle | desipoint/coordinates.py:79-90 | the polar offsets x = -r sin a, y = r cos a (y from the top, shifted by 2 and 3) put the pixel at distance r from (514, 515) |
| Coordinates.NearZenith | desipoint/coordinates.py:74-90 | every projected point is within 510 pixels of the zenith pixel |
| Coordinates.RadecToXY | desipoint/coordinates.py:120-122 | the lists keep the input length, and each pixel is `altaz_to_xy` of the sky transformation of the same sample |
| Coordinates.RadecToXYNearZenith | desipoint/coordinates.py:120-122 | every projected sample is within 510 pixels of the zenith pixel |
| Coordinates.Trim | desipoint/coordinates.py:125-136 | lengths are kept; a point within 504 of (512, 512) is returned unchanged (one at exactly 504 is kept); any other point becomes NaN in both lists |
| Coordinates.AboveHorizonKept | desipoint/coordinates.py:125-136 | every point at altitude 0 or more survives `trim` |
| Coordinates.FarBelowHorizonTrimmed | desipoint/coordinates.py:125-136 | every point at altitude -5 or less is trimmed |
| Io.EclipticEnumeration | desipoint/io.py:13-16 | the k-th kept index is kept, the kept indices increase, and exactly EclipticCount(n) = 4 (n div 10) + max(0, min(n mod 10, 6) - 2) of them lie below n |
| Io.EclipticCountStep | desipoint/io.py:14-16 | one more index raises the count by one exactly when the index is kept, and that sample's rank is the old count |
| Io.DecimateEcliptic | desipoint/io.py:13-18 | the loop returns EclipticCount(n) samples; entry k is the sample at the k-th index whose last digit is 2 to 5; the loop in `desipoint.py` (lines 149-154) is the same |
| Io.EverySixth | desipoint/io.py:36 | `mw[::6]` has ceil(n / 6) entries; entry k is sample 6 k; `desipoint.py` line 137 thins the Milky Way the same way |
| Io.Ras | desipoint/io.py:19 | same length; entry i is sample i's right ascension |
| Io.Decs | desipoint/io.py:20 | same length; entry i is sample i's declination |
| Io.SplitRoundTrip | desipoint/io.py:19-20 | re-pairing the RA and Dec lists gives the samples back |
| Io.PairUpRoundTrip | desipoint/io.py:71 | pairing x and y by index and taking the pairs apart gives x and the first len(x) entries of y back |
| Io.ProjectAndTrim | desipoint/io.py:25-26 | entry k of both lists is the projection of sample k when it is on the disk, otherwise NaN |
| Io.LoadEcliptic | desipoint/io.py:7-28 | with `radec`, returns the RA/Dec of the kept samples; otherwise their projected and trimmed x/y, entry k from the k-th kept index |
| Io.LoadMilkyWay | desipoint/io.py:30-47 | with `radec`, returns the RA/Dec of samples 0, 6, 12, ...; otherwise their projected and trimmed x/y |
| Io.LoadSurvey | desipoint/io.py:49-76 | with `radec`, returns the four RA/Dec lists; otherwise two polygons of the same lengths, vertex i being the projection of sample i, never trimmed |
| Io.SurveyVerticesNearZenith | desipoint/io.py:70-74 | untrimmed survey vertices lie within 510 pixels of the zenith pixel |
| Strings.PySlice | desipoint/image.py:30 | Python slicing: within range it is the sequence slice, an inverted range gives the empty string, and the result is never longer than the input |
| Strings.PySliceFromEnd | desipoint/image.py:30-33 | negative bounds count from the end: for b <= a <= len, `s[-a:-b]` is `s[len - a:len - b]` (empty when b is 0) and `s[:-a]` is `s[:len - a]` (empty when a is 0) |
| Strings.ParseNat | desipoint/image.py:30 | `int()` succeeds exactly on a non-empty run of digits |
| Strings.NatToString | desipoint/image.py:33 | `str(n)` is digits only, one digit exactly when n < 10, led by '0' only for 0 |
| Strings.ParseNatToString | desipoint/image.py:30-33 | `int(str(n)) == n` |
| Strings.Remove | desipoint/image.py:67 | `replace(c, "")` leaves no `c` and never lengthens |
| Strings.RemoveMembers | desipoint/image.py:67 | exactly the characters other than `c` survive `replace(c, "")` |
| Strings.RemoveConcat | desipoint/image.py:67 | `replace(c, "")` distributes over concatenation |
| Strings.Replace | desipoint/image.py:67 | `replace(c, d)` keeps the length, turns every `c` into `d` and keeps every other character |
| Strings.ReplaceConcat | desipoint/image.py:67 | `replace(c, d)` distributes over concatenation |
| Strings.Split | desipoint/image.py:66 | `split(c)` gives at least one field, none containing `c`, the first a prefix of the string |
| Strings.JoinSplit | desipoint/image.py:66 | joining the fields of `split(c)` with `c` gives the string back |
| Strings.SplitJoin | desipoint/image.py:66 | splitting a join of separator-free fields gives the fields back |
| Strings.SplitCons | desipoint/image.py:66 | a separator-free first field followed by `c` is split off first |
| Image.RoundUpEven | desipoint/image.py:32 | `(m + 1) // 2 * 2` is even, at most one more than m, and equal to m exactly when m is even |
| Image.RoundUpEvenLeast | desipoint/image.py:31-32 | it is the least even number at or above m; 59 becomes 60 |
| Image.NextImageTime | desipoint/image.py:29-33 | succeeds exactly when characters [-9:-7] parse as a number; the result keeps everything before them and ends in ":05.000"; `scripts/make_image.py` lines 35-39 round the video's start the same way |
| Image.NextImageTimeOfIso | desipoint/image.py:29-33 | on "YYYY-MM-DD HH:MM:SS.sss" the result is date, hour, the rounded minutes unpadded, then ":05.000" |
| Image.BeforeFirst | desipoint/image.py:66 | `split(c)[0]` holds no `c` |
| Image.FileStem | desipoint/image.py:67 | no ':', '-', ' ' or '.' is left |
| Image.FileName | desipoint/image.py:67-68 | the name ends in ".jpg", holds no ':', '-' or ' ', and has no '.' before the extension |
| Image.FileStemOfIso | desipoint/image.py:67 | an ISO instant gives "YYYYMMDD_HHMMSS" |
| Image.FileNameOfIso | scripts/make_image.py:106-109 | an ISO instant gives "YYYYMMDD_HHMMSS.jpg" |
| Image.ImageUrl | desipoint/image.py:71 | the URL starts with the base and ends in "/" and the file name |
| Image.DatePathOfIso | desipoint/image.py:66-71 | the date before the space, with '-' turned into '/', is "YYYY/MM/DD" |
| Image.ImageUrlOfIso | scripts/make_image.py:106-112 | an ISO instant gives base + "YYYY/MM/DD/" + "YYYYMMDD_HHMMSS.jpg" |
| Image.DateStamp | desipoint/image.py:135 | the date stamp holds no '-' and no ' ' |
| Image.DateStampOfIso | scripts/make_image.py:253 | an ISO instant gives the stamp "YYYYMMDD" that names the video |
| Image.ClockText | desipoint/image.py:132-133 | defined exactly when the printed instant has a space; it then ends in " Local" after at most 5 characters |
| Image.ClockLabel | desipoint/image.py:132-133 | the label of instant t is cut from the printing of t - 7 h: defined exactly when that printing has a space, ending in " Local" |
| Image.SplitFieldCount | desipoint/image.py:132 | `split(c)` has a second field exactly when `c` occurs |
| Image.ClockTextOfIso | desipoint/image.py:132-133 | an ISO string gives "HH:MM Local" |
| Image.ClockLabelOfIso | desipoint/image.py:132-133 | when the instant 7 hours before t prints as an ISO string, the label of t is that string's "HH:MM Local": the clock runs 7 hours behind UTC |
| Image.RowMarker | desipoint/image.py:127 | defined exactly when the row has columns 1 and 2 and both parse; it is then `altaz_to_xy(el, az)` |
| Image.PointingMarker | desipoint/image.py:85 | the marker comes from row 1 of the CSV, the first after the header |
| Video.DownloadedSound | scripts/make_image.py:113-120 | every downloaded image was found at its own instant, a multiple of 120 seconds after the start and before the end |
| Video.DownloadedSpaced | scripts/make_image.py:113-126 | downloaded images are at least 120 seconds apart, in order |
| Video.DownloadedComplete | scripts/make_image.py:104-126 | every instant start + 120 k before the end whose image exists is downloaded |
| Video.ProgressMissing | scripts/make_image.py:122-126 | a missing image at an even counter adds 2 to the counter and 120 seconds, and adds nothing |
| Video.ProgressFound | scripts/make_image.py:113-143 | a found image at an even counter is appended and the counter moves to the odd minute |
| Video.ProgressOdd | scripts/make_image.py:141-143 | an odd counter downloads nothing and moves on 60 seconds |
| Video.ProgressFinished | scripts/make_image.py:104 | once the instant reaches the end, all images are downloaded and every iteration is done |
| Video.SubTime | scripts/make_image.py:88-95 | `sub_time` is never negative: the time elapsed for a stamp at or before the instant, and the 1000-day sentinel for a stamp after it |
| Video.ArgMin | scripts/make_image.py:139 | `np.argmin`: the position of the first smallest element |
| Video.TimeOnly | scripts/make_image.py:81 | the stamps of `results[1:-1]`: stamp i is that of row i + 1 |
| Video.NextPre | scripts/make_image.py:136-139 | the search finds a row exactly when the window is non-empty, and that row lies in [pre + 10, pre + 30) |
| Video.NextPreMinimal | scripts/make_image.py:136-139 | the row found has the smallest `sub_time` of the window and is the first with it |
| Video.NextPreAllLater | scripts/make_image.py:136-139 | with every stamp of the window after the instant, row pre + 10 is taken |
| Video.NextPreLatestBefore | scripts/make_image.py:128-139 | over increasing stamps, when the first window stamp is less than 1000 days before the instant, the row found is at or before the instant and no earlier than any other window row at or before it |
| Video.PickRow | scripts/make_image.py:135-140 | the row is found exactly when the search window is non-empty; it is then the search's result, appended, and the picked rows stay consistent with their searches; an empty window changes nothing |
| Video.ChosenAppend | scripts/make_image.py:135-140 | appending the row the search finds keeps the picked rows consistent with their searches |
| Video.PickedNext | scripts/make_image.py:135-140 | an iteration with counter > 1 picks the row the search finds from the previous one |
| Video.PickedNone | scripts/make_image.py:135 | an iteration with counter <= 1 picks nothing |
| Video.IterationCount | scripts/make_image.py:113-143 | the loop runs at least 2 × (number of images) - 1 iterations |
| Video.FirstStep | scripts/make_image.py:135 | after the first minute the loop goes on exactly as one started 120 seconds later, and the first instant adds one image exactly when it is found |
| Video.SelectionsCoverFrames | scripts/make_image.py:217 | there are at least as many telemetry rows as frames, so `pointings[n]` never fails |
| Video.SearchesFindLong | scripts/make_image.py:136-139 | each search advances fewer than 30 stamps, so 30 stamps per search ahead of `pre` always suffice |
| Video.SearchesFindShort | scripts/make_image.py:136-139 | each search advances at least 10 stamps, so with at most 10 stamps per search ahead of `pre` some window is empty |
| Video.SearchesAlongChain | scripts/make_image.py:135-140 | the searches after a chain already made succeed exactly when those continuing from its last row do |
| Video.PickedRowStamp | scripts/make_image.py:132-140 | the appended row `results[pre]` carries stamp `time_only[pre - 1]`, one before the stamp the search chose, with pre >= 10 |
| Video.CaptureFails | scripts/make_image.py:135-139 | an empty window at a selection instant means the searches along all selection instants do not succeed |
| Video.CaptureDone | scripts/make_image.py:104-143 | on leaving the loop, images and rows are complete, with a row for every frame, and every search found a row |
| Video.CaptureImages | scripts/make_image.py:77-143 | without pointing it succeeds; with pointing, no data row fails with MissingTelemetry, and with one it succeeds exactly when no search along the selection instants meets an empty window, failing otherwise with EmptyWindow; the images are Downloaded(start, end); rows are picked at the selection instants, one per frame at least |
| Video.CaptureLoop | scripts/make_image.py:101-143 | the `while` loop succeeds without pointing, and with pointing exactly when every search along the selection instants finds a row; failure is EmptyWindow; on success the images are exactly Downloaded(start, end) and each row is the search's result from the previous one |
| Video.FrameImageInRange | scripts/make_image.py:246-250 | with `(len - 1) * 2` frames, image n // 2 and the one after it exist |
| Video.FrameTimesIncrease | scripts/make_image.py:207-209 | frame instants increase within [start, end), the odd frame 60 seconds after its even one |
| Video.FrameLabel | scripts/make_image.py:207-213 | frame n's clock is cut from the printing of its instant minus 7 h, defined exactly when that printing has a space |
| Video.FrameLabelAllFound | scripts/make_image.py:207-213 | with every image found, frame n shows the "HH:MM Local" of start + 60 n - 7 h |
| Video.FrameMarker | scripts/make_image.py:217 | frame n's marker is `altaz_to_xy` of row n's columns 1 and 2 whenever they parse |
| Video.IterationTimesAllFound | scripts/make_image.py:104-143 | with every image found, the loop visits every minute from the start to the end |
| Video.SelectionTimesAllFound | scripts/make_image.py:135-140 | with every image found, rows are picked for the start and for every minute from start + 120 on |
| Video.TelemetryLeadsFrames | scripts/make_image.py:207-217 | with every image found, frame n >= 1 is at start + 60 n, while its row was picked for start + 60 (n + 1) |
| Legacy.AltAzToXY | desipoint.py:39-62 | same lengths, and each point is the package's `altaz_to_xy` of the same altitude and azimuth |
| Legacy.PointAgrees | desipoint.py:44-60 | one point of the script's projection equals the package's |
| Legacy.RadiusAgrees | desipoint.py:44 | the script's interpolation gives the package's radius |
| Legacy.TablesAgree | desipoint.py:20-21 | the script's tables are the package's |
| Legacy.RotatedPoint | desipoint.py:45-60 | the package's projection with the rotation written as 0.1, as the script has it |
| Legacy.PolarAgrees | desipoint.py:49-60 | the script's centre and shift are the package's |
| Legacy.RadecToXY | desipoint.py:64-67 | both lists have the input's length |
| Legacy.RadecToXYAgrees | desipoint.py:64-67 | the script's `radec_to_xy` is the package's |
| Legacy.KeptAgrees | desipoint.py:191-194 | the script's distance test is the package's disk |
| Legacy.MaskOutside | desipoint.py:193-196 | the loop turns exactly the points farther than 504 into NaN and leaves the others |
| Legacy.Trim | desipoint.py:188-198 | new result arrays of the same lengths, each point kept exactly when on the disk, else NaN; the input arrays are not written |
| Legacy.TicksSpacing | desipoint.py:89-107 | the loop visits ceil((end - start) / 120) instants, the k-th at start + 120 k, all before the end |
| Legacy.NightOfDate | desipoint.py:76-83 | 02:30:05 to 13:00:00 on the script's night gives 315 images and 629 frames |
| Legacy.DayStringRoundTrip | desipoint.py:81 | removing the dashes from `date[:4] + "-" + date[4:6] + "-" + date[6:8]` gives the date back |
| Legacy.FetchedMissing | desipoint.py:99-100 | an unreadable image is the first missing instant |
| Legacy.DownloadImages | desipoint.py:88-107 | succeeds exactly when every instant's image is readable; it then returns all of them in order, each with its instant; otherwise it fails at the first unreadable instant |
| Legacy.DownloadLoop | desipoint.py:89-107 | the same for the loop alone, for any way of finding an instant's image |
| Legacy.FrameImages | desipoint.py:265 | with `len * 2 - 1` frames, image n // 2 always exists; every image is shown, on two frames except the last |
| Legacy.InitialLabel | desipoint.py:218-220 | the first label is `label[0:8]` and `label[8:]`, which give the label back |
| Legacy.UpdateLabel | desipoint.py:225-231 | the time text is the first 8 characters; a non-empty remainder becomes the progress at opacity 1, otherwise the progress is kept at 0.5 |
| Legacy.LastProgressRow | desipoint.py:227-228 | the latest row at or before n with a remainder, or row 0 |
| Legacy.LabelFromRows | desipoint.py:222-231 | on frame n the time text is row n's, the progress is the remainder of the latest row with one, and the opacity is 1 exactly when row n has one |
| Legacy.FrameAt | desipoint.py:233-238 | frame n exists exactly when the table has row n; its marker is `altaz_to_xy` of row n |
| Legacy.FrameTime | desipoint.py:238-262 | frame n shows image n // 2, taken at start + 120 (n // 2), before the end |

## Left out

- The astropy ICRS to AltAz transformation (`radec_to_altaz`) is a function parameter, because it needs refraction, Earth orientation and ephemerides.
- Sine, cosine and `np.radians` are a parameter. Only sin² + cos² = 1 and the values at 0 are assumed.
- IEEE floating point, rounding and NaN propagation are left out: the model computes over reals, and NaN is `None`.
- `np.hypot` is replaced by the comparison of squared distances. Over non-negative reals that comparison is the same.
- The `trim` functions do not model NumPy's acceptance of scalars and lists.
- HTTP requests, authentication, PIL decoding and `auth.txt` are left out. The image served for an instant is a parameter, `None` when PIL raises.
- The telemetry SQL query and CSV decoding are left out: the rows arrive as a list of lists of strings.
- astropy's `Time` parsing and ISO printing are left out. Instants are integer seconds, and their printed form is a parameter, or is built from its digit fields.
- `float()` of a CSV cell and the stamp `Time(r[0][:-6])` of a row are parameters.
- Reading the feature files (`json.load`, `ast.literal_eval`, `Table.read`) is left out: the parsed lists are inputs.
- matplotlib figures, patches and text, the animation driver, ffmpeg and `print` are left out, because they are output only. So are the survey-polygon and feature-track refresh in `update_img`; those are `radec_to_xy` and `trim` again.
- `int()` is modelled only on runs of ASCII digits. Its acceptance of surrounding white space, a sign and underscores is left out, because the ISO minute field never has them.
- Video.SubTime: differences are whole seconds, and the sentinel is 1000 days (86 400 000 s). This is how astropy compares a plain number with a `TimeDelta`. Sub-second stamps and astropy's own rounding are not modelled.
- Video.CaptureImages: a fetch is keyed by the instant, not by the URL string. The URL is modelled and proved separately (`Image.ImageUrlOfIso`).
- `create_image` as a whole is left out, because it is plotting. Its string and marker steps are modelled one by one in `Image`.
- scripts/overlay_image.py, setup.py and src/main.js are left out: they are argument parsing, packaging and page set-up.
- The figure set-up reads `images[0]`, which raises when no image was found. That failure is not modelled.
- In `desipoint.py`, the listing of the local image directory (line 78) is left out. Its result is never used, but it raises `FileNotFoundError` when the directory is missing; that failure is not modelled. The night's label/alt/az table is an input.
- The clock text drawn before the first frame (scripts/make_image.py:201-202, UTC and without " Local") is replaced by frame 0's label, so it is not modelled.
- `desipoint/image.py` calls `csv.reader` without importing `csv`, so `create_image` with pointing raises a `NameError` there. The model follows the evident intent: the rows of the CSV text.
- The package tests compare with `.npy` fixtures approximately, so they give no exact values to prove.

/**
 * The Spacewatch all-sky camera's fisheye projection: from altitude and
 * azimuth to a pixel of the 1024 x 1024 image, through an empirical table
 * that maps zenith angle to image radius, and the trimming of points that
 * fall outside the visible sky disk.
 *
 * Trigonometry is not computed: `Trig` carries the sine and cosine of an
 * angle given in degrees (that is, `sin` after `radians`), and the lemmas
 * that need them assume only the Pythagorean identity and the values at 0.
 * The astropy transformation from right ascension and declination to
 * altitude and azimuth is likewise a parameter.
 */
module Coordinates {
  import opened Wrappers
  import opened Interpolation

  /** `theta_sw`: zenith angles (degrees) of the calibration nodes. */
  const ZenithTable: seq<real> := [0.0, 10.0, 20.0, 30.0, 40.0, 50.0, 60.0, 70.0, 80.0, 90.0, 95.0]
  /** `r_sw`: image radius (pixels) at each calibration node. */
  const RadiusTable: seq<real> := [0.0, 55.0, 110.0, 165.0, 220.0, 275.0, 330.0, 385.0, 435.0, 480.0, 510.0]

  /** Image centre, in both coordinates. */
  const Center: real := 512.0
  /** True zenith is 2 pixels right and 3 pixels down from the image centre. */
  const ZenithShiftX: real := 2.0
  const ZenithShiftY: real := 3.0
  const ZenithX: real := Center + ZenithShiftX
  const ZenithY: real := Center + ZenithShiftY
  /** The camera is rotated by 0.1 degree in azimuth. */
  const Rotation: real := 0.1
  /** Points farther than this from the image centre are trimmed. */
  const TrimRadius: real := 504.0
  /** The largest radius the table produces. */
  const MaxRadius: real := 510.0

  /** Sine and cosine of an angle in degrees. */
  datatype Trig = Trig(sinDeg: real -> real, cosDeg: real -> real)

  /** The two facts about sine and cosine the lemmas rely on. */
  ghost predicate IsTrig(t: Trig) {
    && (forall a :: t.sinDeg(a) * t.sinDeg(a) + t.cosDeg(a) * t.cosDeg(a) == 1.0)
    && t.sinDeg(0.0) == 0.0 && t.cosDeg(0.0) == 1.0
  }

  datatype Pixel = Pixel(x: real, y: real)
  datatype Horizontal = Horizontal(alt: real, az: real)

  /** `radec_to_altaz`: the astropy ICRS to AltAz transformation at the camera site, for an instant. */
  type SkyTransform = (real, real, int) -> Horizontal

  lemma TablesOrdered()
    ensures |ZenithTable| == |RadiusTable| == 11
    ensures StrictlyIncreasing(ZenithTable) && StrictlyIncreasing(RadiusTable)
    ensures NonDecreasing(RadiusTable)
    ensures RadiusTable[0] == 0.0 && RadiusTable[|RadiusTable| - 1] == MaxRadius
  {
  }

  // ---------------------------------------------------------------------------
  // Radius from altitude
  // ---------------------------------------------------------------------------

  /** `np.interp(90 - alt, theta_sw, r_sw)`. */
  function Radius(alt: real): (r: real)
    ensures 0.0 <= r <= MaxRadius
  {
    TableBounds(90.0 - alt);
    Interp(90.0 - alt, ZenithTable, RadiusTable)
  }

  /** Interpolating in the table stays between its first and last radius. */
  lemma TableBounds(z: real)
    ensures 0.0 <= Interp(z, ZenithTable, RadiusTable) <= MaxRadius
  {
    TablesOrdered();
    InterpBounds(z, ZenithTable, RadiusTable);
  }

  /** At each calibration zenith angle the radius is that node's radius. */
  lemma RadiusAtNodes()
    ensures forall k :: 0 <= k < 11 ==> Radius(90.0 - ZenithTable[k]) == RadiusTable[k]
    ensures Radius(90.0) == 0.0 && Radius(0.0) == 480.0 && Radius(-5.0) == 510.0
  {
    TablesOrdered();
    forall k | 0 <= k < 11 ensures Radius(90.0 - ZenithTable[k]) == RadiusTable[k] {
      assert 90.0 - (90.0 - ZenithTable[k]) == ZenithTable[k];
      InterpAtNode(ZenithTable, RadiusTable, k);
    }
    assert Radius(90.0 - ZenithTable[0]) == RadiusTable[0];
    assert Radius(90.0 - ZenithTable[9]) == RadiusTable[9];
    assert Radius(90.0 - ZenithTable[10]) == RadiusTable[10];
  }

  /** Beyond the table the radius is clamped: 0 at and above the zenith, 510 at zenith angles of 95 degrees or more. */
  lemma RadiusClamped(alt: real)
    ensures alt >= 90.0 ==> Radius(alt) == 0.0
    ensures alt <= -5.0 ==> Radius(alt) == MaxRadius
  {
    TablesOrdered();
    InterpClamped(90.0 - alt, ZenithTable, RadiusTable);
  }

  /** The radius never decreases as the zenith angle grows, and strictly grows on zenith angles 0..95. */
  lemma RadiusMonotone(alt1: real, alt2: real)
    requires alt2 <= alt1
    ensures Radius(alt1) <= Radius(alt2)
    ensures alt2 < alt1 && -5.0 <= alt2 && alt1 <= 90.0 ==> Radius(alt1) < Radius(alt2)
  {
    var z1, z2 := 90.0 - alt1, 90.0 - alt2;
    TablesOrdered();
    assert Radius(alt1) == Interp(z1, ZenithTable, RadiusTable);
    assert Radius(alt2) == Interp(z2, ZenithTable, RadiusTable);
    InterpMonotone(z1, z2, ZenithTable, RadiusTable);
    if alt2 < alt1 && -5.0 <= alt2 && alt1 <= 90.0 {
      assert ZenithTable[0] <= z1 && z2 <= ZenithTable[10];
      InterpStrictlyMonotone(z1, z2, ZenithTable, RadiusTable);
    }
  }

  /** Between neighbouring calibration nodes the radius lies on the chord through them, linear in the zenith angle. */
  lemma RadiusLinear(alt: real, k: nat)
    requires k < 10
    requires ZenithTable[k] <= 90.0 - alt <= ZenithTable[k + 1]
    ensures ZenithTable[k] < ZenithTable[k + 1]
    ensures Radius(alt) == Chord(90.0 - alt, ZenithTable[k], ZenithTable[k + 1], RadiusTable[k], RadiusTable[k + 1])
  {
    TablesOrdered();
    InterpLinear(90.0 - alt, ZenithTable, RadiusTable, k);
  }

  // ---------------------------------------------------------------------------
  // altaz_to_xy
  // ---------------------------------------------------------------------------

  /**
   * `altaz_to_xy` for one point: the radius from the table and the azimuth
   * rotated by 0.1 degree, then the polar offsets.
   */
  function AltAzToXY(alt: real, az: real, trig: Trig): Pixel
  {
    PolarPixel(Radius(alt), az + Rotation, trig)
  }

  /**
   * The pixel at radius `r` and azimuth `a`: x = 512 - r sin(a) and
   * y = 512 - r cos(a) (y counts from the top), both shifted to the
   * off-centre zenith.
   */
  function PolarPixel(r: real, a: real, trig: Trig): Pixel
  {
    var x := -1.0 * r * trig.sinDeg(a);
    var y := r * trig.cosDeg(a);
    Pixel(x + Center + ZenithShiftX, Center - y + ZenithShiftY)
  }

  function Square(v: real): real { v * v }

  /** Every azimuth at the zenith (or above it) lands on the zenith pixel (514, 515). */
  lemma ZenithPixel(alt: real, az: real, trig: Trig)
    requires alt >= 90.0
    ensures AltAzToXY(alt, az, trig) == Pixel(514.0, 515.0)
  {
    RadiusClamped(alt);
  }

  /** The rotation: azimuth -0.1 points straight up from the zenith pixel. */
  lemma RotatedNorth(alt: real, trig: Trig)
    requires IsTrig(trig)
    ensures AltAzToXY(alt, -0.1, trig) == Pixel(514.0, 515.0 - Radius(alt))
  {
    assert -0.1 + Rotation == 0.0;
  }

  /** The projected point lies on the circle of radius `Radius(alt)` around the zenith pixel. */
  lemma OnZenithCircle(alt: real, az: real, trig: Trig)
    requires IsTrig(trig)
    ensures var p := AltAzToXY(alt, az, trig);
            Square(p.x - ZenithX) + Square(p.y - ZenithY) == Square(Radius(alt))
  {
    var a := az + Rotation;
    assert trig.sinDeg(a) * trig.sinDeg(a) + trig.cosDeg(a) * trig.cosDeg(a) == 1.0;
    PolarOnCircle(Radius(alt), a, trig);
  }

  /** Every pixel PolarPixel gives lies at distance `r` from the zenith pixel. */
  lemma PolarOnCircle(r: real, a: real, trig: Trig)
    requires trig.sinDeg(a) * trig.sinDeg(a) + trig.cosDeg(a) * trig.cosDeg(a) == 1.0
    ensures var p := PolarPixel(r, a, trig);
            Square(p.x - ZenithX) + Square(p.y - ZenithY) == Square(r)
  {
    var sn, cs := trig.sinDeg(a), trig.cosDeg(a);
    var p := PolarPixel(r, a, trig);
    var dx, dy := p.x - ZenithX, p.y - ZenithY;
    assert dx == -1.0 * r * sn && dy == -(r * cs);
    PolarPoint(dx, dy, r, sn, cs);
  }

  lemma PolarPoint(dx: real, dy: real, r: real, sn: real, cs: real)
    requires sn * sn + cs * cs == 1.0
    requires dx == -1.0 * r * sn && dy == -(r * cs)
    ensures Square(dx) + Square(dy) == Square(r)
  {
    assert Square(dx) + Square(dy) == r * r * (sn * sn + cs * cs);
  }

  /** The projected point stays within 510 pixels of the zenith pixel. */
  lemma NearZenith(alt: real, az: real, trig: Trig)
    requires IsTrig(trig)
    ensures var p := AltAzToXY(alt, az, trig);
            Square(p.x - ZenithX) + Square(p.y - ZenithY) <= Square(MaxRadius)
  {
    OnZenithCircle(alt, az, trig);
    SquareMonotone(Radius(alt), MaxRadius);
  }

  lemma SquareMonotone(a: real, b: real)
    requires 0.0 <= a <= b
    ensures Square(a) <= Square(b)
    ensures a < b ==> Square(a) < Square(b)
  {
    assert Square(b) - Square(a) == (b - a) * (b + a);
    if a < b {
      var u, w := b - a, b + a;
      assert u > 0.0 && w > 0.0;
      assert u * w > 0.0;
      assert Square(b) - Square(a) == u * w;
    }
  }

  // ---------------------------------------------------------------------------
  // radec_to_xy
  // ---------------------------------------------------------------------------

  /** `radec_to_xy`: `radec_to_altaz` then `altaz_to_xy`, element by element. */
  function RadecToXY(ra: seq<real>, dec: seq<real>, time: int, sky: SkyTransform, trig: Trig)
    : (xy: (seq<real>, seq<real>))
    requires |ra| == |dec|
    ensures |xy.0| == |ra| && |xy.1| == |ra|
    ensures forall i :: 0 <= i < |ra| ==>
              Pixel(xy.0[i], xy.1[i]) == AltAzToXY(sky(ra[i], dec[i], time).alt, sky(ra[i], dec[i], time).az, trig)
  {
    var p := seq(|ra|, i requires 0 <= i < |ra| => var h := sky(ra[i], dec[i], time); AltAzToXY(h.alt, h.az, trig));
    (seq(|p|, i requires 0 <= i < |p| => p[i].x), seq(|p|, i requires 0 <= i < |p| => p[i].y))
  }

  /** Every projected sample lies within 510 pixels of the zenith pixel. */
  lemma RadecToXYNearZenith(ra: seq<real>, dec: seq<real>, time: int, sky: SkyTransform, trig: Trig, i: nat)
    requires |ra| == |dec| && i < |ra| && IsTrig(trig)
    ensures var xy := RadecToXY(ra, dec, time, sky, trig);
            Square(xy.0[i] - ZenithX) + Square(xy.1[i] - ZenithY) <= Square(MaxRadius)
  {
    var h := sky(ra[i], dec[i], time);
    NearZenith(h.alt, h.az, trig);
  }

  // ---------------------------------------------------------------------------
  // trim
  // ---------------------------------------------------------------------------

  /** A point is kept by `trim` when its distance from (512, 512) is at most 504. */
  predicate OnDisk(x: real, y: real) {
    Square(Center - x) + Square(Center - y) <= Square(TrimRadius)
  }

  /** `512 - v` on a possibly-NaN value. */
  function Unshift(v: Option<real>): Option<real> {
    match v
    case Some(d) => Some(Center - d)
    case None => None
  }

  /**
   * `trim`: shift both coordinate arrays to the centre, overwrite every
   * point whose distance exceeds 504 with NaN, and shift back. Lengths are
   * kept, kept points are unchanged, and a point at exactly 504 is kept.
   */
  method Trim(xIn: seq<real>, yIn: seq<real>) returns (xs: seq<Option<real>>, ys: seq<Option<real>>)
    requires |xIn| == |yIn|
    ensures |xs| == |xIn| && |ys| == |yIn|
    ensures forall i :: 0 <= i < |xIn| ==>
              xs[i] == (if OnDisk(xIn[i], yIn[i]) then Some(xIn[i]) else None) &&
              ys[i] == (if OnDisk(xIn[i], yIn[i]) then Some(yIn[i]) else None)
  {
    var n := |xIn|;
    var x := new Option<real>[n](k requires 0 <= k < n => Some(Center - xIn[k]));
    var y := new Option<real>[n](k requires 0 <= k < n => Some(Center - yIn[k]));
    // Squared distances, standing in for np.hypot (both are compared with 504).
    var r2 := seq(n, k requires 0 <= k < n => Square(Center - xIn[k]) + Square(Center - yIn[k]));
    var i := 0;
    while i < n
      invariant 0 <= i <= n
      invariant forall k :: 0 <= k < n ==>
                  x[k] == (if k < i && !OnDisk(xIn[k], yIn[k]) then None else Some(Center - xIn[k]))
      invariant forall k :: 0 <= k < n ==>
                  y[k] == (if k < i && !OnDisk(xIn[k], yIn[k]) then None else Some(Center - yIn[k]))
    {
      assert r2[i] > Square(TrimRadius) <==> !OnDisk(xIn[i], yIn[i]);
      if r2[i] > Square(TrimRadius) {
        x[i] := None;
        y[i] := None;
      }
      i := i + 1;
    }
    xs := seq(n, k requires 0 <= k < n reads x => Unshift(x[k]));
    ys := seq(n, k requires 0 <= k < n reads y => Unshift(y[k]));
  }

  /** Every point on or above the horizon survives `trim`. */
  lemma AboveHorizonKept(alt: real, az: real, trig: Trig)
    requires IsTrig(trig) && alt >= 0.0
    ensures var p := AltAzToXY(alt, az, trig); OnDisk(p.x, p.y)
  {
    var r, a := Radius(alt), az + Rotation;
    RadiusMonotone(alt, 0.0);
    RadiusAtNodes();
    assert r <= 480.0;
    assert trig.sinDeg(a) * trig.sinDeg(a) + trig.cosDeg(a) * trig.cosDeg(a) == 1.0;
    PolarKept(r, a, trig);
  }

  /** Every point 5 degrees or more below the horizon is trimmed. */
  lemma FarBelowHorizonTrimmed(alt: real, az: real, trig: Trig)
    requires IsTrig(trig) && alt <= -5.0
    ensures var p := AltAzToXY(alt, az, trig); !OnDisk(p.x, p.y)
  {
    var a := az + Rotation;
    RadiusClamped(alt);
    assert trig.sinDeg(a) * trig.sinDeg(a) + trig.cosDeg(a) * trig.cosDeg(a) == 1.0;
    PolarTrimmed(a, trig);
  }

  /** A pixel within 480 pixels of the zenith pixel is on the disk. */
  lemma PolarKept(r: real, a: real, trig: Trig)
    requires 0.0 <= r <= 480.0
    requires trig.sinDeg(a) * trig.sinDeg(a) + trig.cosDeg(a) * trig.cosDeg(a) == 1.0
    ensures var p := PolarPixel(r, a, trig); OnDisk(p.x, p.y)
  {
    var p := PolarPixel(r, a, trig);
    var dx, dy := p.x - ZenithX, p.y - ZenithY;
    PolarOnCircle(r, a, trig);
    InnerCircleOnDisk(dx, dy, r);
    assert p.x == dx + ZenithX && p.y == dy + ZenithY;
  }

  /** A pixel 510 pixels from the zenith pixel is off the disk. */
  lemma PolarTrimmed(a: real, trig: Trig)
    requires trig.sinDeg(a) * trig.sinDeg(a) + trig.cosDeg(a) * trig.cosDeg(a) == 1.0
    ensures var p := PolarPixel(MaxRadius, a, trig); !OnDisk(p.x, p.y)
  {
    var p := PolarPixel(MaxRadius, a, trig);
    var dx, dy := p.x - ZenithX, p.y - ZenithY;
    PolarOnCircle(MaxRadius, a, trig);
    OuterCircleOffDisk(dx, dy);
    assert p.x == dx + ZenithX && p.y == dy + ZenithY;
  }

  /** Offsets (dx, dy) from the zenith pixel, seen from the image centre, are (dx + 2, dy + 3). */
  lemma InnerCircleOnDisk(dx: real, dy: real, r: real)
    requires 0.0 <= r <= 480.0 && Square(dx) + Square(dy) == Square(r)
    ensures OnDisk(dx + ZenithX, dy + ZenithY)
  {
    BoundedByRadius(dx, dy, r);
    SquareMonotone(r, 480.0);
    assert Square(Center - (dx + ZenithX)) + Square(Center - (dy + ZenithY))
        == Square(dx) + Square(dy) + 4.0 * dx + 6.0 * dy + 13.0;
  }

  lemma OuterCircleOffDisk(dx: real, dy: real)
    requires Square(dx) + Square(dy) == Square(MaxRadius)
    ensures !OnDisk(dx + ZenithX, dy + ZenithY)
  {
    BoundedByRadius(dx, dy, MaxRadius);
    assert Square(Center - (dx + ZenithX)) + Square(Center - (dy + ZenithY))
        == Square(dx) + Square(dy) + 4.0 * dx + 6.0 * dy + 13.0;
  }

  /** A point at distance `r` from the zenith pixel has both offsets within [-r, r]. */
  lemma BoundedByRadius(dx: real, dy: real, r: real)
    requires 0.0 <= r && Square(dx) + Square(dy) == Square(r)
    ensures -r <= dx <= r && -r <= dy <= r
  {
    assert Square(dx) >= 0.0 && Square(dy) >= 0.0;
    assert Square(-dx) == Square(dx) && Square(-dy) == Square(dy);
    if dx > r { SquareMonotone(r, dx); }
    if dx < -r { SquareMonotone(r, -dx); }
    if dy > r { SquareMonotone(r, dy); }
    if dy < -r { SquareMonotone(r, -dy); }
  }
}

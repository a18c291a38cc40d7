/** Which outlines are stored, and which error every other one gets. */
module OutlineRules {
  import opened Wrappers
  import opened Folds
  import opened Plane
  import opened Geofence
  import opened Outlines
  import opened OutlineCurve
  import Rounding

  /** A multiple of a ten-millionth of a degree, nearest to x. */
  ghost predicate IsRounded(degrees: real, x: real) { exists n: int :: IsStep(degrees, x, n) }

  predicate IsStep(degrees: real, x: real, n: int) {
    degrees * 10000000.0 == n as real && Rounding.IsNearest(n, x * 10000000.0)
  }

  ghost predicate AreRounded(corners: seq<LatLng>, value: seq<LatLng>) {
    && |corners| == |value|
    && forall i :: 0 <= i < |value| ==>
         IsRounded(corners[i].lat, value[i].lat) && IsRounded(corners[i].lng, value[i].lng)
  }

  /** A first corner repeated at the end is dropped once, from four corners on. */
  ghost predicate IsOpened(ring: seq<LatLng>, corners: seq<LatLng>) {
    if |corners| >= 4 && corners[|corners| - 1] == corners[0] then ring + [corners[0]] == corners else ring == corners
  }

  lemma RoundedIs(degrees: real, x: real)
    requires IsRounded(degrees, x)
    ensures degrees == RoundCoordinate(x)
  {
    var n: int :| IsStep(degrees, x, n);
    NearestRounds(x * 10000000.0, n);
    StepIs(degrees, x, n);
  }

  lemma NearestRounds(y: real, n: int)
    requires Rounding.IsNearest(n, y)
    ensures Rounding.RoundHalfEven(y) == n
  {
    Rounding.RoundHalfEvenIff(y, n);
  }

  lemma StepIs(degrees: real, x: real, n: int)
    requires degrees * 10000000.0 == n as real && Rounding.RoundHalfEven(x * 10000000.0) == n
    ensures RoundCoordinate(x) == degrees
  {
    Rounding.RoundToIs(x, COORDINATE_STEPS, n);
  }

  lemma CornersAreUnique(corners: seq<LatLng>, value: seq<LatLng>)
    requires AreRounded(corners, value)
    ensures corners == RoundCorners(value)
  {
    forall i | 0 <= i < |value| ensures corners[i] == RoundCorners(value)[i] {
      RoundedIs(corners[i].lat, value[i].lat);
      RoundedIs(corners[i].lng, value[i].lng);
    }
  }

  // ---- The area ------------------------------------------------------------------------------

  /** Half of a shoelace sum with both scales applied, without its sign. */
  predicate IsHalf(area: real, kx: real, ky: real, twice: real) {
    area >= 0.0 && (2.0 * area == kx * ky * twice || 2.0 * area == -(kx * ky * twice))
  }

  /** The square metres of the fan of triangles, at the metres per degree of the mean latitude. */
  ghost predicate IsArea(area: real, earth: Earth, ring: seq<LatLng>, lat: real) {
    && IsMeanLat(lat, ring)
    && exists kx, ky :: AreScales(kx, ky, earth, lat)
         && IsHalf(area, kx, ky, FanOf(ring))
  }

  predicate IsMeanLat(lat: real, ring: seq<LatLng>) { lat * |ring| as real == Sum(ring, (p: LatLng) => p.lat) }

  /** Twice the square degrees of the triangles that the ring is cut into from its first corner. */
  function FanOf(ring: seq<LatLng>): real { TwiceFan(Map((p: LatLng) => Point(p.lng, p.lat), ring), |ring|) }

  lemma HalfIs(kx: real, ky: real, twice: real)
    ensures IsHalf(HalfSize(Stretched(kx, ky, twice)), kx, ky, twice)
  {
  }

  lemma MeanLatIs(ring: seq<LatLng>)
    requires ring != []
    ensures IsMeanLat(CornerAverage(ring).lat, ring)
  {
    AverageIs(ring);
  }

  lemma AreaIsHalf(earth: Earth, ring: seq<LatLng>, lat: real) returns (kx: real, ky: real)
    requires ring != [] && lat == CornerAverage(ring).lat
    ensures AreScales(kx, ky, earth, lat)
    ensures IsHalf(AreaSquareMetres(earth, ring), kx, ky, TwiceArea(Map(Chart, ring)))
  {
    kx, ky := earth.East(lat), earth.North();
    ScalesAre(earth, lat);
    AreaOnChart(earth, ring, kx, ky);
    HalfIs(kx, ky, TwiceArea(Map(Chart, ring)));
  }

  lemma FanIs(ring: seq<LatLng>)
    ensures TwiceArea(Map(Chart, ring)) == FanOf(ring)
  {
    ShoelaceIsFan(Map(Chart, ring));
    assert Map(Chart, ring) == Map((p: LatLng) => Point(p.lng, p.lat), ring);
  }

  lemma AreaIs(earth: Earth, ring: seq<LatLng>, lat: real)
    requires ring != [] && lat == CornerAverage(ring).lat
    ensures IsArea(AreaSquareMetres(earth, ring), earth, ring, lat)
  {
    var kx, ky := AreaIsHalf(earth, ring, lat);
    FanIs(ring);
    SameHalf(AreaSquareMetres(earth, ring), kx, ky, TwiceArea(Map(Chart, ring)), FanOf(ring));
    MeanLatIs(ring);
  }

  lemma SameHalf(area: real, kx: real, ky: real, a: real, b: real)
    requires a == b && IsHalf(area, kx, ky, a)
    ensures IsHalf(area, kx, ky, b)
  {
  }

  // ---- The rules -----------------------------------------------------------------------------

  /** What is said of a ring with that area. */
  ghost predicate Judged(result: Result<seq<LatLng>, OutlineError>, earth: Earth, ring: seq<LatLng>, area: real) {
    && (result == Ok(ring) <==> Simple(ring) && 400.0 <= area <= earth.pi * 25000000.0)
    && (result == Err(TooFewCorners) <==> |ring| < 3)
    && (result == Err(NotSimple) <==> |ring| >= 3 && !Simple(ring))
    && (result == Err(TooSmall) <==> Simple(ring) && area < 400.0)
    && (result == Err(TooLarge) <==> Simple(ring) && 400.0 <= area && area > earth.pi * 25000000.0)
  }

  lemma ValidateJudges(earth: Earth, ring: seq<LatLng>, area: real)
    requires ring != [] ==> area == AreaSquareMetres(earth, ring)
    ensures Judged(Validate(earth, ring), earth, ring, area)
  {
    SimpleIff(earth, ring);
    LimitIs(earth.pi);
  }

  lemma LimitIs(pi: real)
    ensures pi * RADIUS_MAX_METRES * RADIUS_MAX_METRES == pi * 25000000.0
  {
  }

  lemma CoordinateIsRounded(x: real)
    ensures IsRounded(RoundCoordinate(x), x)
  {
    var n := Rounding.RoundHalfEven(x * 10000000.0);
    Rounding.RoundHalfEvenIff(x * 10000000.0, n);
    StepOf(RoundCoordinate(x), x, n);
  }

  lemma StepOf(degrees: real, x: real, n: int)
    requires degrees == RoundCoordinate(x) && Rounding.RoundHalfEven(x * 10000000.0) == n
    requires Rounding.IsNearest(n, x * 10000000.0)
    ensures IsStep(degrees, x, n)
  {
    Rounding.RoundToIs(x, COORDINATE_STEPS, n);
    Rounding.PartsScale(n, COORDINATE_STEPS);
  }

  lemma CornersAreRounded(value: seq<LatLng>)
    ensures AreRounded(RoundCorners(value), value)
  {
    forall i | 0 <= i < |value|
      ensures IsRounded(RoundCorners(value)[i].lat, value[i].lat) && IsRounded(RoundCorners(value)[i].lng, value[i].lng)
    {
      CoordinateIsRounded(value[i].lat);
      CoordinateIsRounded(value[i].lng);
    }
  }

  lemma RingIsOpened(corners: seq<LatLng>)
    ensures IsOpened(Opened(corners), corners)
  {
    if |corners| >= 4 && corners[|corners| - 1] == corners[0] {
      assert corners == corners[..|corners| - 1] + [corners[|corners| - 1]];
    }
  }

  /** With the corners rounded, which is possible in one way only, and the ring opened: it is stored exactly
      when it is simple and its area is within the limits; every error has its exact condition. */
  lemma NormaliseIff(earth: Earth, value: seq<LatLng>)
    returns (corners: seq<LatLng>, ring: seq<LatLng>, lat: real, area: real)
    ensures AreRounded(corners, value) && IsOpened(ring, corners)
    ensures forall other :: AreRounded(other, value) ==> other == corners
    ensures ring != [] ==> IsArea(area, earth, ring, lat)
    ensures Judged(NormalisePolygon(earth, value), earth, ring, area)
  {
    corners, ring := RoundCorners(value), Opened(RoundCorners(value));
    CornersAreRounded(value);
    RingIsOpened(corners);
    forall other | AreRounded(other, value) ensures other == corners {
      CornersAreUnique(other, value);
    }
    area, lat := 0.0, 0.0;
    if ring != [] {
      lat := CornerAverage(ring).lat;
      area := AreaSquareMetres(earth, ring);
      AreaIs(earth, ring, lat);
    }
    ValidateJudges(earth, ring, area);
  }
}

/**
 Distance from a point to the boundary of an outline, and the rule for the pin of a precinct.
 Distances are compared squared, which orders them the same way.
 */
module Boundary {
  import opened Reals
  import opened Wrappers
  import opened Folds
  import opened Plane
  import opened Rings
  import opened Geofence

  const PIN_MAX_OUTSIDE_POLYGON_METRES := 100.0

  function DistanceSq(p: Point, q: Point): real {
    (p.x - q.x) * (p.x - q.x) + (p.y - q.y) * (p.y - q.y)
  }

  function LengthSq(a: Point, b: Point): real {
    (b.x - a.x) * (b.x - a.x) + (b.y - a.y) * (b.y - a.y)
  }

  function Dot(p: Point, a: Point, b: Point): real {
    (p.x - a.x) * (b.x - a.x) + (p.y - a.y) * (b.y - a.y)
  }

  function Clamp(t: real): real { Max(0.0, Min(1.0, t)) }

  /** The fraction of ab at which the foot of p is clamped. */
  function Foot(p: Point, a: Point, b: Point): real {
    if LengthSq(a, b) == 0.0 then 0.0 else Clamp(Dot(p, a, b) / LengthSq(a, b))
  }

  function SegmentDistanceSq(p: Point, a: Point, b: Point): real {
    DistanceSq(p, Along(a, b, Foot(p, a, b)))
  }

  lemma QuotientAtLeastOne(k: real, len: real)
    requires 0.0 < len <= k
    ensures k / len >= 1.0
  {
    var q := k / len;
    assert q * len == k;
    if q < 1.0 {
      var short := PositiveProduct(1.0 - q, len);
    }
  }

  lemma QuotientAtMostZero(k: real, len: real)
    requires k <= 0.0 < len
    ensures k / len <= 0.0
  {
    var q := k / len;
    assert q * len == k;
    if q > 0.0 {
      var product := PositiveProduct(q, len);
    }
  }

  /** The excess of a parabola over its value at the clamped minimiser is not negative. */
  lemma ClampedMinimum(len: real, k: real, t: real, u: real, excess: real)
    requires len > 0.0 && t == Clamp(k / len) && 0.0 <= u <= 1.0
    requires excess == (u - t) * (len * (u + t) - 2.0 * k)
    ensures excess >= 0.0
  {
    if k <= 0.0 {
      QuotientAtMostZero(k, len);
      assert Clamp(k / len) == 0.0;
      ExcessAtStart(len, k, t, u, excess);
    } else if k >= len {
      QuotientAtLeastOne(k, len);
      assert Clamp(k / len) == 1.0;
      ExcessAtEnd(len, k, t, u, excess);
    } else {
      ExcessBetween(len, k, k / len, u, excess);
    }
  }

  lemma ExcessAtStart(len: real, k: real, t: real, u: real, excess: real)
    requires len > 0.0 && k <= 0.0 && t == 0.0 && u >= 0.0
    requires excess == (u - t) * (len * (u + t) - 2.0 * k)
    ensures excess >= 0.0
  {
    var slope := NonNegativeProduct(len, u);
    var product := NonNegativeProduct(u, slope - 2.0 * k);
    assert product == excess;
  }

  lemma ExcessAtEnd(len: real, k: real, t: real, u: real, excess: real)
    requires 0.0 < len <= k && t == 1.0 && 0.0 <= u <= 1.0
    requires excess == (u - t) * (len * (u + t) - 2.0 * k)
    ensures excess >= 0.0
  {
    var short := NonNegativeProduct(len, 1.0 - u);
    var slope := 2.0 * k - len * (u + 1.0);
    assert slope == 2.0 * (k - len) + short;
    var product := NonNegativeProduct(1.0 - u, slope);
    assert product == excess;
  }

  lemma ExcessBetween(len: real, k: real, t: real, u: real, excess: real)
    requires len > 0.0 && t == k / len && excess == (u - t) * (len * (u + t) - 2.0 * k)
    ensures excess >= 0.0
  {
    assert len * t == k;
    var square := SquareSign(u - t);
    var product := NonNegativeProduct(len, square);
    assert len * (u + t) - 2.0 * k == len * (u - t);
    assert (u - t) * (len * (u - t)) == product;
  }

  /** One coordinate's share of the squared distance from a + u * (b - a) to p, with w = p - a and r = b - a. */
  function OffsetSq(w: real, r: real, u: real): real { (w - u * r) * (w - u * r) }

  lemma OffsetChange(w: real, r: real, t: real, u: real, rr: real, wr: real)
    requires rr == r * r && wr == w * r
    ensures OffsetSq(w, r, u) - OffsetSq(w, r, t) == (u - t) * (rr * (u + t) - 2.0 * wr)
  {
    OffsetExpanded(w, r, u, rr, wr);
    OffsetExpanded(w, r, t, rr, wr);
    assert (u - t) * (rr * (u + t)) == rr * (u * u) - rr * (t * t);
  }

  lemma OffsetExpanded(w: real, r: real, u: real, rr: real, wr: real)
    requires rr == r * r && wr == w * r
    ensures OffsetSq(w, r, u) == w * w - 2.0 * (u * wr) + rr * (u * u)
  {
    assert (u * r) * (u * r) == rr * (u * u);
    assert w * (u * r) == u * wr;
  }

  lemma CommonFactor(f: real, g: real, k: real, l: real, m: real, n: real)
    ensures f * (k * g - 2.0 * m) + f * (l * g - 2.0 * n) == f * ((k + l) * g - 2.0 * (m + n))
  {
  }

  lemma DistanceAlong(p: Point, a: Point, b: Point, u: real)
    ensures DistanceSq(p, Along(a, b, u)) == OffsetSq(p.x - a.x, b.x - a.x, u) + OffsetSq(p.y - a.y, b.y - a.y, u)
  {
  }

  /** No point of the segment is nearer. */
  lemma SegmentDistanceLeast(p: Point, a: Point, b: Point, u: real)
    requires 0.0 <= u <= 1.0
    ensures SegmentDistanceSq(p, a, b) <= DistanceSq(p, Along(a, b, u))
  {
    SumOfSquares(b.x - a.x, b.y - a.y, LengthSq(a, b));
    if LengthSq(a, b) == 0.0 {
      DegenerateAlong(a, b, u);
      DegenerateAlong(a, b, Foot(p, a, b));
    } else {
      ProperLeast(p, a, b, u);
    }
  }

  lemma ProperLeast(p: Point, a: Point, b: Point, u: real)
    requires 0.0 <= u <= 1.0 && LengthSq(a, b) > 0.0
    ensures SegmentDistanceSq(p, a, b) <= DistanceSq(p, Along(a, b, u))
  {
    var excess := ExcessAlong(p, a, b, Foot(p, a, b), u);
    ClampedMinimum(LengthSq(a, b), Dot(p, a, b), Foot(p, a, b), u, excess);
  }

  lemma DegenerateAlong(a: Point, b: Point, u: real)
    requires b.x - a.x == 0.0 && b.y - a.y == 0.0
    ensures Along(a, b, u) == a
  {
  }

  /** How the squared distance changes along a segment. */
  lemma ExcessAlong(p: Point, a: Point, b: Point, t: real, u: real) returns (excess: real)
    ensures excess == (u - t) * (LengthSq(a, b) * (u + t) - 2.0 * Dot(p, a, b))
    ensures DistanceSq(p, Along(a, b, u)) - DistanceSq(p, Along(a, b, t)) == excess
  {
    excess := (u - t) * (LengthSq(a, b) * (u + t) - 2.0 * Dot(p, a, b));
    var wx, wy, rx, ry := p.x - a.x, p.y - a.y, b.x - a.x, b.y - a.y;
    OffsetChange(wx, rx, t, u, rx * rx, wx * rx);
    OffsetChange(wy, ry, t, u, ry * ry, wy * ry);
    CommonFactor(u - t, u + t, rx * rx, ry * ry, wx * rx, wy * ry);
    DistanceAlong(p, a, b, u);
    DistanceAlong(p, a, b, t);
  }

  lemma SumOfSquares(x: real, y: real, sum: real)
    requires sum == x * x + y * y
    ensures sum >= 0.0
    ensures sum == 0.0 ==> x == 0.0 && y == 0.0
  {
    var xx := SquareSign(x);
    var yy := SquareSign(y);
  }

  /** The squared distance to a segment is the least over all its points, and is attained. */
  lemma SegmentDistanceIsMinimum(p: Point, a: Point, b: Point)
    ensures forall q :: On(q, a, b) ==> SegmentDistanceSq(p, a, b) <= DistanceSq(p, q)
    ensures exists q :: On(q, a, b) && SegmentDistanceSq(p, a, b) == DistanceSq(p, q)
  {
    forall q | On(q, a, b) ensures SegmentDistanceSq(p, a, b) <= DistanceSq(p, q) {
      var u :| 0.0 <= u <= 1.0 && q == Along(a, b, u);
      SegmentDistanceLeast(p, a, b, u);
    }
    assert 0.0 <= Foot(p, a, b) <= 1.0;
    assert On(Along(a, b, Foot(p, a, b)), a, b);
  }

  // ---- Distance to the boundary --------------------------------------------------------

  function EdgeDistances(edges: seq<Edge>): seq<real> {
    Map((e: Edge) => SegmentDistanceSq(Point(0.0, 0.0), e.a, e.b), edges)
  }

  /** The square of distance_to_boundary_metres; a ring without corners has no boundary. */
  function BoundaryDistanceSq(earth: Earth, polygon: seq<LatLng>, point: LatLng): Option<real> {
    if polygon == [] then None
    else Some(Least(EdgeDistances(Edges(ProjectRing(earth, point, polygon)))))
  }

  /** The point a fraction u of the way along edge i of the outline. */
  function BoundaryPoint(polygon: seq<LatLng>, i: nat, u: real): LatLng
    requires i < |polygon|
  {
    var p, q := polygon[i], polygon[Next(i, |polygon|)];
    LatLng(p.lat + u * (q.lat - p.lat), p.lng + u * (q.lng - p.lng))
  }

  /** Squared metres from the point, on the flat plane around it. */
  function MetresSq(earth: Earth, point: LatLng, q: LatLng): real {
    DistanceSq(Point(0.0, 0.0), Project(earth, point, q))
  }

  lemma ProjectAffine1(v: real, w: real, o: real, p: real, q: real, k: real, u: real)
    requires v == (p - o) * k && w == (q - o) * k
    ensures (p + u * (q - p) - o) * k == v + u * (w - v)
  {
    assert (u * (q - p)) * k == u * ((q - p) * k);
    assert (q - p) * k == w - v;
  }

  lemma ProjectedBoundary(earth: Earth, polygon: seq<LatLng>, point: LatLng, i: nat, u: real)
    requires i < |polygon|
    ensures var e := Edges(ProjectRing(earth, point, polygon))[i];
            Project(earth, point, BoundaryPoint(polygon, i, u)) == Along(e.a, e.b, u)
  {
    var p, q := polygon[i], polygon[Next(i, |polygon|)];
    var a, b := Project(earth, point, p), Project(earth, point, q);
    assert Edges(ProjectRing(earth, point, polygon))[i] == Edge(a, b);
    ProjectAffine1(a.x, b.x, point.lng, p.lng, q.lng, earth.East(point.lat), u);
    ProjectAffine1(a.y, b.y, point.lat, p.lat, q.lat, earth.North(), u);
  }

  /** distance_to_boundary_metres is the true distance: no boundary point is nearer, one is as near. */
  lemma BoundaryDistanceIsMinimum(earth: Earth, polygon: seq<LatLng>, point: LatLng)
    requires polygon != []
    ensures BoundaryDistanceSq(earth, polygon, point).Some?
    ensures forall i: nat, u: real :: i < |polygon| && 0.0 <= u <= 1.0 ==>
              BoundaryDistanceSq(earth, polygon, point).value <= MetresSq(earth, point, BoundaryPoint(polygon, i, u))
    ensures exists i: nat, u: real :: i < |polygon| && 0.0 <= u <= 1.0
              && BoundaryDistanceSq(earth, polygon, point).value == MetresSq(earth, point, BoundaryPoint(polygon, i, u))
  {
    var edges := Edges(ProjectRing(earth, point, polygon));
    var distances := EdgeDistances(edges);
    var origin := Point(0.0, 0.0);
    forall i: nat, u: real | i < |polygon| && 0.0 <= u <= 1.0
      ensures BoundaryDistanceSq(earth, polygon, point).value <= MetresSq(earth, point, BoundaryPoint(polygon, i, u))
    {
      ProjectedBoundary(earth, polygon, point, i, u);
      SegmentDistanceLeast(origin, edges[i].a, edges[i].b, u);
      assert distances[i] in distances;
    }
    var i :| 0 <= i < |distances| && distances[i] == Least(distances);
    var u := Foot(origin, edges[i].a, edges[i].b);
    ProjectedBoundary(earth, polygon, point, i, u);
    assert 0.0 <= u <= 1.0 && Least(distances) == MetresSq(earth, point, BoundaryPoint(polygon, i, u));
  }

  // ---- The pin rule --------------------------------------------------------------------

  datatype PinError = NoOutline | PinTooFar

  function CheckPinFitsPolygon(earth: Earth, pin: LatLng, polygon: seq<LatLng>): Result<(), PinError> {
    if Inside(earth, polygon, pin) then Ok(())
    else
      var distanceSq := BoundaryDistanceSq(earth, polygon, pin);
      if distanceSq.None? then Err(NoOutline)
      else if distanceSq.value > PIN_MAX_OUTSIDE_POLYGON_METRES * PIN_MAX_OUTSIDE_POLYGON_METRES then Err(PinTooFar)
      else Ok(())
  }

  /** Some boundary point is within the limit of the pin. */
  ghost predicate NearBoundary(earth: Earth, pin: LatLng, polygon: seq<LatLng>) {
    exists i: nat, u: real :: i < |polygon| && 0.0 <= u <= 1.0
      && MetresSq(earth, pin, BoundaryPoint(polygon, i, u)) <= 100.0 * 100.0
  }

  /** The squared metres of the differences in longitude and latitude, at the metres per degree there. */
  lemma MetresSqIs(earth: Earth, point: LatLng, q: LatLng, kx: real, ky: real)
    requires kx == earth.East(point.lat) && ky == earth.North()
    ensures AreScales(kx, ky, earth, point.lat)
    ensures MetresSq(earth, point, q) == Square((q.lng - point.lng) * kx) + Square((q.lat - point.lat) * ky)
  {
    ScalesAre(earth, point.lat);
    SquareNegated((q.lng - point.lng) * kx);
    SquareNegated((q.lat - point.lat) * ky);
  }

  function Square(x: real): real { x * x }

  lemma SquareNegated(x: real)
    ensures (0.0 - x) * (0.0 - x) == Square(x)
  {
  }

  /** The pin is accepted exactly when it is inside or some boundary point is within a hundred metres; else it
      is too far, or there is no outline. */
  lemma PinFitsIff(earth: Earth, pin: LatLng, polygon: seq<LatLng>)
    ensures CheckPinFitsPolygon(earth, pin, polygon).Ok?
        <==> Inside(earth, polygon, pin) || NearBoundary(earth, pin, polygon)
    ensures CheckPinFitsPolygon(earth, pin, polygon) == Err(NoOutline) <==> polygon == []
  {
    if polygon != [] {
      BoundaryDistanceIsMinimum(earth, polygon, pin);
    }
  }
}

/**
 Polygon geofences: inside or out by ray casting, distance to the edge, and a point inside.
 Angles enter only through the cosine of a latitude, a positive factor.
 */
module Geofence {
  import opened Reals
  import opened Wrappers
  import opened Folds
  import opened Plane
  import opened Rings
  import Sorting

  const EARTH_RADIUS_METRES := 6371008.8

  datatype LatLng = LatLng(lat: real, lng: real)

  /** The constants the projection takes from trigonometry: pi, and the cosine of a latitude
      in degrees, which is positive on the latitudes that occur. */
  datatype Globe = Globe(pi: real, cosine: real -> real) {
    function North(): real { pi * EARTH_RADIUS_METRES / 180.0 }

    function East(lat: real): real { North() * cosine(lat) }
  }

  type Earth = g: Globe | g.pi > 0.0 && forall lat :: g.cosine(lat) > 0.0
    ghost witness Globe(3.0, (lat: real) => 1.0)

  lemma ScalesPositive(earth: Earth, lat: real)
    ensures earth.North() > 0.0 && earth.East(lat) > 0.0
  {
    assert earth.cosine(lat) > 0.0;
    assert earth.North() > 0.0;
  }

  /** The metres per degree of longitude and of latitude. */
  predicate AreScales(kx: real, ky: real, earth: Earth, lat: real) {
    ky == earth.pi * 6371008.8 / 180.0 && kx == ky * earth.cosine(lat)
  }

  lemma ScalesAre(earth: Earth, lat: real)
    ensures AreScales(earth.East(lat), earth.North(), earth, lat)
  {
  }

  /** Metres east and north of the origin. */
  function Project(earth: Earth, origin: LatLng, p: LatLng): Point {
    Point((p.lng - origin.lng) * earth.East(origin.lat), (p.lat - origin.lat) * earth.North())
  }

  function ProjectRing(earth: Earth, origin: LatLng, polygon: seq<LatLng>): (ring: seq<Point>)
    ensures |ring| == |polygon|
    ensures forall i :: 0 <= i < |polygon| ==> ring[i] == Project(earth, origin, polygon[i])
  {
    Map((p: LatLng) => Project(earth, origin, p), polygon)
  }

  // ---- Ray casting -------------------------------------------------------------------

  predicate Above(p: Point) { p.y > 0.0 }

  /** The edge passes from one side of the line y == 0 to the other. */
  predicate Straddles(e: Edge) { Above(e.a) != Above(e.b) }

  /** Where an edge that changes side of the line y == 0 meets it. */
  function CrossingX(e: Edge): real
    requires Straddles(e)
  {
    e.a.x + (0.0 - e.a.y) * (e.b.x - e.a.x) / (e.b.y - e.a.y)
  }

  /** The edges that a ray going east from (m, 0) crosses. */
  function RightOf(m: real): Edge -> bool {
    (e: Edge) => Straddles(e) && CrossingX(e) > m
  }

  /** A point is inside when a ray from it crosses an odd number of edges. */
  predicate Inside(earth: Earth, polygon: seq<LatLng>, point: LatLng) {
    Count(Edges(ProjectRing(earth, point, polygon)), RightOf(0.0)) % 2 == 1
  }

  lemma CountNext(edges: seq<Edge>, i: nat, p: Edge -> bool)
    requires i < |edges|
    ensures Count(edges[..i + 1], p) == Count(edges[..i], p) + if p(edges[i]) then 1 else 0
  {
    assert edges[..i + 1] == edges[..i] + [edges[i]];
    CountSnoc(edges[..i], edges[i], p);
  }

  method Contains(earth: Earth, polygon: seq<LatLng>, point: LatLng) returns (inside: bool)
    ensures inside == Inside(earth, polygon, point)
  {
    var edges := Edges(ProjectRing(earth, point, polygon));
    inside := false;
    for i := 0 to |edges|
      invariant inside == (Count(edges[..i], RightOf(0.0)) % 2 == 1)
    {
      var e := edges[i];
      CountNext(edges, i, RightOf(0.0));
      if (e.a.y > 0.0) != (e.b.y > 0.0) {
        var crossingX := CrossingX(e);
        if crossingX > 0.0 {
          inside := !inside;
        }
      }
    }
    assert edges[..|edges|] == edges;
  }

  lemma CrossingFlips(e: Edge)
    requires Straddles(e)
    ensures CrossingX(Flip(e)) == CrossingX(e)
  {
    var dx, dy := e.b.x - e.a.x, e.b.y - e.a.y;
    var t := (0.0 - e.a.y) / dy;
    assert t * dy == -e.a.y;
    Quotient(-e.a.y, dx, dy, t);
    assert (t - 1.0) * dy == -e.b.y;
    Quotient(-e.b.y, -dx, -dy, 1.0 - t);
  }

  lemma Quotient(u: real, v: real, w: real, t: real)
    requires w != 0.0 && t * w == u
    ensures u * v / w == t * v
  {
    assert u * v == (t * v) * w;
    Cancel(w, u * v / w, t * v);
  }

  lemma ProjectRotates(earth: Earth, origin: LatLng, polygon: seq<LatLng>, k: nat)
    requires k <= |polygon|
    ensures ProjectRing(earth, origin, Rotate(polygon, k)) == Rotate(ProjectRing(earth, origin, polygon), k)
    ensures ProjectRing(earth, origin, Reverse(polygon)) == Reverse(ProjectRing(earth, origin, polygon))
  {
  }

  /** Neither the starting corner nor the direction decides who is inside. */
  lemma InsideOfRing(earth: Earth, polygon: seq<LatLng>, k: nat, point: LatLng)
    requires k <= |polygon|
    ensures Inside(earth, Rotate(polygon, k), point) == Inside(earth, polygon, point)
    ensures Inside(earth, Reverse(polygon), point) == Inside(earth, polygon, point)
  {
    var ring := ProjectRing(earth, point, polygon);
    ProjectRotates(earth, point, polygon, k);
    forall e ensures RightOf(0.0)(Flip(e)) == RightOf(0.0)(e) {
      if Straddles(e) {
        CrossingFlips(e);
      }
    }
    CountOfRing(ring, k, RightOf(0.0));
  }

  // ---- A point inside ------------------------------------------------------------------

  datatype GeometryError = NoCorners | NoCrossings

  function LatOf(p: LatLng): real { p.lat }

  function LngOf(p: LatLng): real { p.lng }

  function CornerAverage(polygon: seq<LatLng>): LatLng
    requires polygon != []
  {
    LatLng(Sum(polygon, LatOf) / |polygon| as real, Sum(polygon, LngOf) / |polygon| as real)
  }

  function Crossings(edges: seq<Edge>): seq<real> {
    if edges == [] then []
    else
      var e := edges[|edges| - 1];
      Crossings(edges[..|edges| - 1]) + if Straddles(e) then [CrossingX(e)] else []
  }

  /** The crossings of the horizontal line through the corner average, from west to east. */
  function ScanLine(earth: Earth, polygon: seq<LatLng>): seq<real>
    requires polygon != []
  {
    Sorting.SortReals(Crossings(Edges(ProjectRing(earth, CornerAverage(polygon), polygon))))
  }

  /** The point a number of metres east of the origin on its own parallel. */
  function EastOf(earth: Earth, origin: LatLng, metres: real): LatLng {
    ScalesPositive(earth, origin.lat);
    LatLng(origin.lat, origin.lng + metres / earth.East(origin.lat))
  }

  /** Midway between the two western-most crossings of the scan line. */
  function Midway(crossings: seq<real>): real
    requires |crossings| >= 2
  {
    (crossings[0] + crossings[1]) / 2.0
  }

  function InteriorPoint(earth: Earth, polygon: seq<LatLng>): Result<LatLng, GeometryError> {
    if polygon == [] then Err(NoCorners)
    else
      var average := CornerAverage(polygon);
      if Inside(earth, polygon, average) then Ok(average)
      else
        var crossings := ScanLine(earth, polygon);
        if |crossings| < 2 then Err(NoCrossings)
        else
          Ok(EastOf(earth, average, Midway(crossings)))
  }

  function Beyond(m: real): real -> bool { (x: real) => x > m }

  lemma {:induction false} CrossingsCounted(edges: seq<Edge>, m: real)
    ensures |Crossings(edges)| == Count(edges, Straddles)
    ensures Count(Crossings(edges), Beyond(m)) == Count(edges, RightOf(m))
  {
    if edges != [] {
      var front, e := edges[..|edges| - 1], edges[|edges| - 1];
      CrossingsCounted(front, m);
      if Straddles(e) {
        CountSnoc(Crossings(front), CrossingX(e), Beyond(m));
      } else {
        assert Crossings(edges) == Crossings(front);
      }
    }
  }

  /** In a sorted list, midway between the two least values, exactly the copies of the least
      are not beyond. */
  lemma {:induction false} BeyondLeast(s: seq<real>, low: real, m: real)
    requires forall i :: 0 <= i < |s| ==> s[i] == low || s[i] > m
    requires low <= m
    ensures Count(s, Beyond(m)) + multiset(s)[low] == |s|
  {
    if s != [] {
      var front := s[..|s| - 1];
      assert s == front + [s[|s| - 1]];
      BeyondLeast(front, low, m);
    }
  }

  /** Moving the point east along its own parallel moves every crossing west by as much. */
  lemma ShiftedCrossings(earth: Earth, polygon: seq<LatLng>, origin: LatLng, m: real)
    ensures Inside(earth, polygon, EastOf(earth, origin, m))
         == (Count(Edges(ProjectRing(earth, origin, polygon)), RightOf(m)) % 2 == 1)
  {
    ScalesPositive(earth, origin.lat);
    var east := earth.East(origin.lat);
    var moved := EastOf(earth, origin, m);
    var before := ProjectRing(earth, origin, polygon);
    var after := ProjectRing(earth, moved, polygon);
    var shift := (p: Point) => Point(p.x - m, p.y);
    var shiftEdge := (e: Edge) => Edge(shift(e.a), shift(e.b));
    forall i | 0 <= i < |polygon| ensures after[i] == shift(before[i]) {
      ShiftedX(polygon[i].lng, origin.lng, east, m);
    }
    assert Edges(after) == Map(shiftEdge, Edges(before));
    forall e ensures RightOf(0.0)(shiftEdge(e)) == RightOf(m)(e) {
      if Straddles(e) {
        assert CrossingX(shiftEdge(e)) == CrossingX(e) - m;
      }
    }
    CountMap(Edges(before), shiftEdge, RightOf(0.0), RightOf(m));
  }

  lemma ShiftedX(lng: real, origin: real, east: real, m: real)
    requires east > 0.0
    ensures (lng - (origin + m / east)) * east == (lng - origin) * east - m
  {
    assert (m / east) * east == m;
    assert (lng - (origin + m / east)) * east == (lng - origin) * east - (m / east) * east;
  }

  /** An odd number of edges meet the scan line at its western-most crossing. */
  predicate OddLeftmost(crossings: seq<real>) {
    crossings != [] && multiset(crossings)[crossings[0]] % 2 == 1
  }

  /** Midway between the two western-most crossings, the ray east meets all edges but those
      tied at the western-most crossing. */
  lemma MidwayParity(ring: seq<Point>, crossings: seq<real>, m: real)
    requires crossings == Sorting.SortReals(Crossings(Edges(ring))) && |crossings| >= 2
    requires m == (crossings[0] + crossings[1]) / 2.0
    ensures Count(Edges(ring), RightOf(m)) % 2 == 1 <==> OddLeftmost(crossings)
  {
    ScanCounts(Edges(ring), crossings, m);
    BeyondMidway(crossings, m);
    RingParity(ring, Above, Straddles);
    OddSplit(Count(Edges(ring), RightOf(m)), multiset(crossings)[crossings[0]], |crossings|);
  }

  lemma OddSplit(a: nat, b: nat, whole: nat)
    requires a + b == whole && whole % 2 == 0
    ensures a % 2 == 1 <==> b % 2 == 1
  {
  }

  lemma ScanCounts(edges: seq<Edge>, crossings: seq<real>, m: real)
    requires crossings == Sorting.SortReals(Crossings(edges))
    ensures |crossings| == Count(edges, Straddles)
    ensures Count(crossings, Beyond(m)) == Count(edges, RightOf(m))
  {
    CrossingsCounted(edges, m);
    CountPermutes(Crossings(edges), crossings, Beyond(m));
  }

  lemma BeyondMidway(crossings: seq<real>, m: real)
    requires |crossings| >= 2 && forall i, j :: 0 <= i < j < |crossings| ==> crossings[i] <= crossings[j]
    requires m == (crossings[0] + crossings[1]) / 2.0
    ensures Count(crossings, Beyond(m)) + multiset(crossings)[crossings[0]] == |crossings|
  {
    forall i | 0 <= i < |crossings| ensures crossings[i] == crossings[0] || crossings[i] > m {
      if i > 1 {
        assert crossings[1] <= crossings[i];
      }
    }
    BeyondLeast(crossings, crossings[0], m);
  }

  lemma FallbackInside(earth: Earth, polygon: seq<LatLng>)
    requires polygon != [] && |ScanLine(earth, polygon)| >= 2
    ensures Inside(earth, polygon, EastOf(earth, CornerAverage(polygon), Midway(ScanLine(earth, polygon))))
         == OddLeftmost(ScanLine(earth, polygon))
  {
    var average := CornerAverage(polygon);
    var ring := ProjectRing(earth, average, polygon);
    var crossings := Sorting.SortReals(Crossings(Edges(ring)));
    ShiftedCrossings(earth, polygon, average, Midway(crossings));
    MidwayParity(ring, crossings, Midway(crossings));
  }

  /** All corners on one parallel. */
  ghost predicate Flat(polygon: seq<LatLng>) {
    forall i, j :: 0 <= i < |polygon| && 0 <= j < |polygon| ==> polygon[i].lat == polygon[j].lat
  }

  lemma ProductNext(m: real, n: nat)
    ensures m * (n + 1) as real == m * n as real + m
  {
  }

  lemma {:induction false} SumAtMost<T>(s: seq<T>, f: T -> real, m: real)
    requires forall i :: 0 <= i < |s| ==> f(s[i]) <= m
    ensures Sum(s, f) <= m * |s| as real
    ensures Sum(s, f) == m * |s| as real ==> forall i :: 0 <= i < |s| ==> f(s[i]) == m
  {
    if s != [] {
      var front := s[..|s| - 1];
      SumAtMost(front, f, m);
      assert forall i :: 0 <= i < |front| ==> front[i] == s[i];
      ProductNext(m, |front|);
    }
  }

  lemma {:induction false} SumAbove<T>(s: seq<T>, f: T -> real, m: real)
    requires s != [] && forall i :: 0 <= i < |s| ==> f(s[i]) > m
    ensures Sum(s, f) > m * |s| as real
  {
    var front := s[..|s| - 1];
    assert forall i :: 0 <= i < |front| ==> front[i] == s[i];
    ProductNext(m, |front|);
    if front != [] {
      SumAbove(front, f, m);
    }
  }

  /** The corner average is neither above all corners nor below all of them. */
  lemma AverageBetween(polygon: seq<LatLng>)
    requires polygon != []
    ensures exists j :: 0 <= j < |polygon| && polygon[j].lat <= CornerAverage(polygon).lat
    ensures !Flat(polygon) ==> exists i :: 0 <= i < |polygon| && polygon[i].lat > CornerAverage(polygon).lat
  {
    var average := CornerAverage(polygon).lat;
    assert average * |polygon| as real == Sum(polygon, LatOf);
    if forall j :: 0 <= j < |polygon| ==> LatOf(polygon[j]) > average {
      SumAbove(polygon, LatOf, average);
    }
    assert exists j :: 0 <= j < |polygon| && LatOf(polygon[j]) <= average;
    if forall i :: 0 <= i < |polygon| ==> polygon[i].lat <= average {
      assert forall i :: 0 <= i < |polygon| ==> LatOf(polygon[i]) <= average;
      SumAtMost(polygon, LatOf, average);
      assert forall i :: 0 <= i < |polygon| ==> LatOf(polygon[i]) == polygon[i].lat;
    }
  }

  lemma AboveIff(earth: Earth, origin: LatLng, p: LatLng)
    ensures Above(Project(earth, origin, p)) <==> p.lat > origin.lat
  {
    ScalesPositive(earth, origin.lat);
    var north := earth.North();
    if p.lat > origin.lat {
      assert (p.lat - origin.lat) * north > 0.0;
    } else {
      assert (origin.lat - p.lat) * north >= 0.0;
    }
  }

  /** The scan line has no crossing at all on a flat ring, and at least two on any other. */
  lemma ScanLineCrossings(earth: Earth, polygon: seq<LatLng>)
    requires polygon != []
    ensures |ScanLine(earth, polygon)| % 2 == 0
    ensures Flat(polygon) <==> ScanLine(earth, polygon) == []
  {
    var average := CornerAverage(polygon);
    var ring := ProjectRing(earth, average, polygon);
    CrossingsCounted(Edges(ring), 0.0);
    RingParity(ring, Above, Straddles);
    AverageBetween(polygon);
    forall i | 0 <= i < |polygon| ensures Above(ring[i]) <==> polygon[i].lat > average.lat {
      AboveIff(earth, average, polygon[i]);
    }
    var j :| 0 <= j < |polygon| && polygon[j].lat <= average.lat;
    if Flat(polygon) {
      forall e | e in Edges(ring) ensures !Straddles(e) {
        var i :| 0 <= i < |ring| && e == Edges(ring)[i];
        assert polygon[i].lat == polygon[Next(i, |ring|)].lat;
      }
      CountNone(Edges(ring), Straddles);
    } else {
      var i :| 0 <= i < |polygon| && polygon[i].lat > average.lat;
      ChangesTwice(ring, Above, Straddles, i, j);
    }
  }

  lemma {:induction false} CountNone<T>(s: seq<T>, p: T -> bool)
    requires forall x :: x in s ==> !p(x)
    ensures Count(s, p) == 0
  {
    if s != [] {
      CountNone(s[..|s| - 1], p);
    }
  }

  lemma InsideCrosses(earth: Earth, polygon: seq<LatLng>)
    requires polygon != [] && Inside(earth, polygon, CornerAverage(polygon))
    ensures !Flat(polygon)
  {
    var edges := Edges(ProjectRing(earth, CornerAverage(polygon), polygon));
    ScanLineCrossings(earth, polygon);
    CrossingsCounted(edges, 0.0);
  }

  /** interior_point fails exactly on a flat or empty ring. Otherwise its answer is inside exactly
      when the corner average is, or an odd number of edges share the western-most crossing. */
  lemma InteriorPointInside(earth: Earth, polygon: seq<LatLng>)
    ensures InteriorPoint(earth, polygon).Ok? <==> !Flat(polygon)
    ensures !Flat(polygon) ==>
              Inside(earth, polygon, InteriorPoint(earth, polygon).value)
              == (|| Inside(earth, polygon, CornerAverage(polygon))
                  || OddLeftmost(ScanLine(earth, polygon)))
  {
    if polygon != [] {
      ScanLineCrossings(earth, polygon);
      if Inside(earth, polygon, CornerAverage(polygon)) {
        InsideCrosses(earth, polygon);
      } else if !Flat(polygon) {
        FallbackInside(earth, polygon);
      }
    }
  }

  /** The mean of the corners. */
  predicate IsAverage(average: LatLng, polygon: seq<LatLng>) {
    && average.lat * |polygon| as real == Sum(polygon, (p: LatLng) => p.lat)
    && average.lng * |polygon| as real == Sum(polygon, (p: LatLng) => p.lng)
  }

  lemma {:induction false} SumsAre(polygon: seq<LatLng>)
    ensures Sum(polygon, LatOf) == Sum(polygon, (p: LatLng) => p.lat)
    ensures Sum(polygon, LngOf) == Sum(polygon, (p: LatLng) => p.lng)
  {
    if polygon != [] {
      SumsAre(polygon[..|polygon| - 1]);
    }
  }

  lemma AverageIs(polygon: seq<LatLng>)
    requires polygon != []
    ensures IsAverage(CornerAverage(polygon), polygon)
  {
    SumsAre(polygon);
  }

  lemma MidwayEast(east: real, origin: real, a: real, b: real)
    requires east > 0.0
    ensures 2.0 * ((origin + (a + b) / 2.0 / east - origin) * east) == a + b
  {
    var q := (a + b) / 2.0 / east;
    assert q * east == (a + b) / 2.0;
    assert origin + q - origin == q;
  }

  /** On the parallel of the average, midway between the first two of the places, which are metres east of it. */
  ghost predicate IsMidway(p: LatLng, average: LatLng, places: seq<real>, metresPerDegree: real) {
    && |places| >= 2 && p.lat == average.lat
    && 2.0 * ((p.lng - average.lng) * metresPerDegree) == places[0] + places[1]
  }

  lemma EastOfIsMidway(earth: Earth, average: LatLng, places: seq<real>)
    requires |places| >= 2
    ensures IsMidway(EastOf(earth, average, Midway(places)), average, places, earth.East(average.lat))
  {
    ScalesPositive(earth, average.lat);
    MidwayEast(earth.East(average.lat), average.lng, places[0], places[1]);
  }

  lemma FallbackIs(earth: Earth, polygon: seq<LatLng>)
    requires polygon != [] && !Inside(earth, polygon, CornerAverage(polygon)) && |ScanLine(earth, polygon)| >= 2
    ensures var average := CornerAverage(polygon);
            InteriorPoint(earth, polygon).Ok?
            && IsMidway(InteriorPoint(earth, polygon).value, average, ScanLine(earth, polygon), earth.East(average.lat))
  {
    EastOfIsMidway(earth, CornerAverage(polygon), ScanLine(earth, polygon));
  }

  /** There is no answer without corners, nor without crossings. */
  lemma InteriorPointErrors(earth: Earth, polygon: seq<LatLng>)
    ensures InteriorPoint(earth, polygon) == Err(NoCorners) <==> polygon == []
    ensures InteriorPoint(earth, polygon) == Err(NoCrossings) <==> polygon != [] && Flat(polygon)
  {
    InteriorPointInside(earth, polygon);
  }

  /** The answer is the mean of the corners when that is inside, and otherwise midway between the two
      western-most places where the outline crosses its parallel. */
  lemma InteriorPointIs(earth: Earth, polygon: seq<LatLng>) returns (average: LatLng)
    requires !Flat(polygon)
    ensures IsAverage(average, polygon) && InteriorPoint(earth, polygon).Ok?
    ensures var p := InteriorPoint(earth, polygon).value;
            if Inside(earth, polygon, average) then p == average
            else IsMidway(p, average, ScanLine(earth, polygon), earth.East(average.lat))
  {
    average := CornerAverage(polygon);
    AverageIs(polygon);
    ScanLineCrossings(earth, polygon);
    if !Inside(earth, polygon, average) {
      FallbackIs(earth, polygon);
    }
  }

  /** The documented guarantee: it holds whenever the two western-most crossings differ. */
  lemma InteriorPointWhenCrossingsDiffer(earth: Earth, polygon: seq<LatLng>)
    requires !Flat(polygon)
    requires var crossings := ScanLine(earth, polygon); |crossings| >= 2 ==> crossings[0] != crossings[1]
    ensures InteriorPoint(earth, polygon).Ok? && Inside(earth, polygon, InteriorPoint(earth, polygon).value)
  {
    InteriorPointInside(earth, polygon);
    ScanLineCrossings(earth, polygon);
    SingleLeast(ScanLine(earth, polygon));
  }

  lemma SingleLeast(s: seq<real>)
    requires |s| >= 2 && s[0] != s[1] && forall i, j :: 0 <= i < j < |s| ==> s[i] <= s[j]
    ensures OddLeftmost(s)
  {
    assert s == [s[0]] + s[1..];
    forall k | 0 <= k < |s[1..]| ensures s[1..][k] != s[0] {
      assert s[0] < s[1] <= s[1 + k];
    }
    assert s[0] !in s[1..];
    assert multiset(s[1..])[s[0]] == 0;
  }
}

/**
 Validity of an outline: simplicity, area, and the normal form in which it is stored.
 */
module Outlines {
  import opened Reals
  import opened Wrappers
  import opened Folds
  import opened Plane
  import opened Rings
  import opened Geofence
  import opened Rounding

  const MIN_POLYGON_VERTICES := 3

  // ---- Simple outlines -----------------------------------------------------------------

  ghost predicate Distinct<T>(s: seq<T>) {
    forall i, j :: 0 <= i < j < |s| ==> s[i] != s[j]
  }

  /** Edges i and j of n share a corner, so their meeting is no crossing. */
  predicate Neighbours(i: nat, j: nat, n: nat)
    requires i < n && j < n
  {
    Next(i, n) == j || Next(j, n) == i
  }

  predicate EdgesCross(e: Edge, f: Edge) { SegmentsCross(e.a, e.b, f.a, f.b) }

  /** The outline in unscaled coordinates. */
  function Chart(p: LatLng): Point { Point(p.lng, p.lat) }

  function ChartEdges(polygon: seq<LatLng>): seq<Edge> { Edges(Map(Chart, polygon)) }

  /** At least three corners, none repeated, and no two non-neighbouring edges share a point. */
  ghost predicate Simple(polygon: seq<LatLng>) {
    var n := |polygon|;
    && n >= MIN_POLYGON_VERTICES
    && Distinct(polygon)
    && forall i, j :: 0 <= i < n && 0 <= j < n && i != j && !Neighbours(i, j, n) ==>
         !Meet(ChartEdges(polygon)[i], ChartEdges(polygon)[j])
  }

  /** The test the code makes: on projected edges, by orientations, for i < j. */
  predicate PassesSimpleTest(earth: Earth, polygon: seq<LatLng>) {
    var n := |polygon|;
    && n >= MIN_POLYGON_VERTICES
    && |(set p | p in polygon)| == n
    && var edges := Edges(ProjectRing(earth, polygon[0], polygon));
       forall i, j :: 0 <= i < j < n && !Neighbours(i, j, n) ==> !EdgesCross(edges[i], edges[j])
  }

  method IsSimple(earth: Earth, polygon: seq<LatLng>) returns (simple: bool)
    ensures simple == PassesSimpleTest(earth, polygon)
  {
    var n := |polygon|;
    if n < MIN_POLYGON_VERTICES || |(set p | p in polygon)| != n {
      return false;
    }
    var edges := Edges(ProjectRing(earth, polygon[0], polygon));
    for i := 0 to n
      invariant forall i', j :: 0 <= i' < i && i' < j < n && !Neighbours(i', j, n) ==> !EdgesCross(edges[i'], edges[j])
    {
      for j := i + 1 to n
        invariant forall j' :: i < j' < j && !Neighbours(i, j', n) ==> !EdgesCross(edges[i], edges[j'])
      {
        if j == i + 1 || (i == 0 && j == n - 1) {
          continue;
        }
        if SegmentsCross(edges[i].a, edges[i].b, edges[j].a, edges[j].b) {
          assert EdgesCross(edges[i], edges[j]) && !Neighbours(i, j, n);
          return false;
        }
      }
    }
    return true;
  }

  lemma DistinctSnoc<T>(s: seq<T>, x: T)
    ensures Distinct(s + [x]) <==> Distinct(s) && x !in s
  {
    var t := s + [x];
    if Distinct(t) {
      assert forall i :: 0 <= i < |s| ==> s[i] == t[i] && t[i] != t[|s|];
      assert x !in s;
    }
    if Distinct(s) && x !in s {
      assert forall i :: 0 <= i < |s| ==> t[i] == s[i] && s[i] in s;
    }
  }

  lemma {:induction false} SetCountsDistinct<T>(s: seq<T>)
    ensures |(set x | x in s)| <= |s|
    ensures |(set x | x in s)| == |s| <==> Distinct(s)
  {
    if s != [] {
      var front, x := s[..|s| - 1], s[|s| - 1];
      SetCountsDistinct(front);
      assert (set y | y in s) == (set y | y in front) + {x};
      assert x in front ==> (set y | y in s) == (set y | y in front);
      DistinctSnoc(front, x);
      assert s == front + [x];
    }
  }

  // ---- Projection keeps what meets -----------------------------------------------------

  /** Scaling by positive factors around an origin. */
  function Scaled(p: Point, o: Point, kx: real, ky: real): Point {
    Point((p.x - o.x) * kx, (p.y - o.y) * ky)
  }

  function ScaledEdge(e: Edge, o: Point, kx: real, ky: real): Edge {
    Edge(Scaled(e.a, o, kx, ky), Scaled(e.b, o, kx, ky))
  }

  lemma ScaledAlong(a: Point, b: Point, t: real, o: Point, kx: real, ky: real)
    ensures Along(Scaled(a, o, kx, ky), Scaled(b, o, kx, ky), t) == Scaled(Along(a, b, t), o, kx, ky)
  {
    var a', b' := Scaled(a, o, kx, ky), Scaled(b, o, kx, ky);
    ScaledAlong1(a'.x, b'.x, a.x, b.x, t, o.x, kx);
    ScaledAlong1(a'.y, b'.y, a.y, b.y, t, o.y, ky);
  }

  lemma ScaledAlong1(u: real, v: real, a: real, b: real, t: real, o: real, k: real)
    requires u == (a - o) * k && v == (b - o) * k
    ensures u + t * (v - u) == (a + t * (b - a) - o) * k
  {
    assert v - u == (b - a) * k;
    assert t * ((b - a) * k) == (t * (b - a)) * k;
  }

  lemma ScaledInjective(p: Point, q: Point, o: Point, kx: real, ky: real)
    requires kx > 0.0 && ky > 0.0 && Scaled(p, o, kx, ky) == Scaled(q, o, kx, ky)
    ensures p == q
  {
    Cancel(kx, p.x - o.x, q.x - o.x);
    Cancel(ky, p.y - o.y, q.y - o.y);
  }

  lemma ScaledMeet(e: Edge, f: Edge, o: Point, kx: real, ky: real)
    requires kx > 0.0 && ky > 0.0
    ensures Meet(ScaledEdge(e, o, kx, ky), ScaledEdge(f, o, kx, ky)) <==> Meet(e, f)
  {
    var e', f' := ScaledEdge(e, o, kx, ky), ScaledEdge(f, o, kx, ky);
    if Meet(e, f) {
      var p :| On(p, e.a, e.b) && On(p, f.a, f.b);
      var s :| 0.0 <= s <= 1.0 && p == Along(e.a, e.b, s);
      var t :| 0.0 <= t <= 1.0 && p == Along(f.a, f.b, t);
      ScaledAlong(e.a, e.b, s, o, kx, ky);
      ScaledAlong(f.a, f.b, t, o, kx, ky);
      var q := Scaled(p, o, kx, ky);
      assert q == Along(e'.a, e'.b, s) == Along(f'.a, f'.b, t);
      assert On(q, e'.a, e'.b) && On(q, f'.a, f'.b);
    }
    if Meet(e', f') {
      var q :| On(q, e'.a, e'.b) && On(q, f'.a, f'.b);
      var s :| 0.0 <= s <= 1.0 && q == Along(e'.a, e'.b, s);
      var t :| 0.0 <= t <= 1.0 && q == Along(f'.a, f'.b, t);
      ScaledAlong(e.a, e.b, s, o, kx, ky);
      ScaledAlong(f.a, f.b, t, o, kx, ky);
      ScaledInjective(Along(e.a, e.b, s), Along(f.a, f.b, t), o, kx, ky);
      assert On(Along(e.a, e.b, s), e.a, e.b) && On(Along(e.a, e.b, s), f.a, f.b);
    }
  }

  lemma ProjectedEdge(earth: Earth, origin: LatLng, polygon: seq<LatLng>, i: nat)
    requires i < |polygon|
    ensures Edges(ProjectRing(earth, origin, polygon))[i]
         == ScaledEdge(ChartEdges(polygon)[i], Chart(origin), earth.East(origin.lat), earth.North())
  {
  }

  lemma MeetSymmetric(e: Edge, f: Edge)
    ensures Meet(e, f) == Meet(f, e)
  {
  }

  lemma ProjectedCross(earth: Earth, origin: LatLng, polygon: seq<LatLng>, i: nat, j: nat)
    requires i < |polygon| && j < |polygon|
    ensures var edges := Edges(ProjectRing(earth, origin, polygon));
            EdgesCross(edges[i], edges[j]) == Meet(ChartEdges(polygon)[i], ChartEdges(polygon)[j])
  {
    var edges := Edges(ProjectRing(earth, origin, polygon));
    ProjectedEdge(earth, origin, polygon, i);
    ProjectedEdge(earth, origin, polygon, j);
    CrossIffMeet(edges[i].a, edges[i].b, edges[j].a, edges[j].b);
    ScalesPositive(earth, origin.lat);
    ScaledMeet(ChartEdges(polygon)[i], ChartEdges(polygon)[j], Chart(origin), earth.East(origin.lat), earth.North());
  }

  /** is_simple is true exactly on simple outlines, whatever the scale of the projection. */
  lemma SimpleIff(earth: Earth, polygon: seq<LatLng>)
    ensures PassesSimpleTest(earth, polygon) <==> Simple(polygon)
  {
    var n := |polygon|;
    SetCountsDistinct(polygon);
    if n >= MIN_POLYGON_VERTICES {
      var edges := Edges(ProjectRing(earth, polygon[0], polygon));
      forall i, j | 0 <= i < n && 0 <= j < n
        ensures EdgesCross(edges[i], edges[j]) == Meet(ChartEdges(polygon)[i], ChartEdges(polygon)[j])
      {
        ProjectedCross(earth, polygon[0], polygon, i, j);
      }
      forall i, j | 0 <= i < n && 0 <= j < n
        ensures Meet(ChartEdges(polygon)[i], ChartEdges(polygon)[j])
                == Meet(ChartEdges(polygon)[j], ChartEdges(polygon)[i])
      {
        MeetSymmetric(ChartEdges(polygon)[i], ChartEdges(polygon)[j]);
      }
    }
  }

  // ---- Start and direction do not matter -----------------------------------------------

  /** The edge of the ring that edge i of the ring started at corner k is. */
  function TurnIndex(i: nat, k: nat, n: nat): (t: nat)
    requires i < n && k <= n
    ensures t < n
  {
    if i < n - k then i + k else i + k - n
  }

  lemma TurnNeighbours(i: nat, j: nat, k: nat, n: nat)
    requires i < n && j < n && k <= n && i != j && !Neighbours(i, j, n)
    ensures TurnIndex(i, k, n) != TurnIndex(j, k, n)
    ensures !Neighbours(TurnIndex(i, k, n), TurnIndex(j, k, n), n)
  {
  }

  lemma TurnEdge(polygon: seq<LatLng>, k: nat, i: nat)
    requires k <= |polygon| && i < |polygon|
    ensures ChartEdges(Rotate(polygon, k))[i] == ChartEdges(polygon)[TurnIndex(i, k, |polygon|)]
  {
    assert Map(Chart, Rotate(polygon, k)) == Rotate(Map(Chart, polygon), k);
    EdgesRotate(Map(Chart, polygon), k);
  }

  lemma SimpleRotated(polygon: seq<LatLng>, k: nat)
    requires k <= |polygon| && Simple(polygon)
    ensures Simple(Rotate(polygon, k))
  {
    var n, turned := |polygon|, Rotate(polygon, k);
    forall i, j | 0 <= i < n && 0 <= j < n && i != j && !Neighbours(i, j, n)
      ensures !Meet(ChartEdges(turned)[i], ChartEdges(turned)[j])
    {
      TurnEdge(polygon, k, i);
      TurnEdge(polygon, k, j);
      TurnNeighbours(i, j, k, n);
    }
  }

  lemma FlipOn(p: Point, a: Point, b: Point)
    requires On(p, a, b)
    ensures On(p, b, a)
  {
    var t :| 0.0 <= t <= 1.0 && p == Along(a, b, t);
    FromOtherEnd(a.x, b.x, t);
    FromOtherEnd(a.y, b.y, t);
    assert p == Along(b, a, 1.0 - t);
  }

  lemma FlipMeet(e: Edge, f: Edge)
    requires Meet(Flip(e), Flip(f))
    ensures Meet(e, f)
  {
    var p :| On(p, e.b, e.a) && On(p, f.b, f.a);
    FlipOn(p, e.b, e.a);
    FlipOn(p, f.b, f.a);
  }

  /** The edge of the ring that edge i of the reversed ring is, flipped. */
  function BackIndex(i: nat, n: nat): (t: nat)
    requires i < n
    ensures t < n
  {
    if i == n - 1 then i else n - 2 - i
  }

  lemma BackNeighbours(i: nat, j: nat, n: nat)
    requires i < n && j < n && i != j && !Neighbours(i, j, n)
    ensures BackIndex(i, n) != BackIndex(j, n) && !Neighbours(BackIndex(i, n), BackIndex(j, n), n)
  {
  }

  lemma BackEdge(polygon: seq<LatLng>, i: nat)
    requires i < |polygon|
    ensures ChartEdges(Reverse(polygon))[i] == Flip(ChartEdges(polygon)[BackIndex(i, |polygon|)])
  {
    assert Map(Chart, Reverse(polygon)) == Reverse(Map(Chart, polygon));
    EdgeReverse(Map(Chart, polygon), i);
  }

  lemma SimpleReversed(polygon: seq<LatLng>)
    requires Simple(polygon)
    ensures Simple(Reverse(polygon))
  {
    var n, back := |polygon|, Reverse(polygon);
    forall i, j | 0 <= i < n && 0 <= j < n && i != j && !Neighbours(i, j, n)
      ensures !Meet(ChartEdges(back)[i], ChartEdges(back)[j])
    {
      BackEdge(polygon, i);
      BackEdge(polygon, j);
      BackNeighbours(i, j, n);
      if Meet(ChartEdges(back)[i], ChartEdges(back)[j]) {
        FlipMeet(ChartEdges(polygon)[BackIndex(i, n)], ChartEdges(polygon)[BackIndex(j, n)]);
      }
    }
  }

  lemma RotateBack<T>(s: seq<T>, k: nat)
    requires k <= |s|
    ensures Rotate(Rotate(s, k), |s| - k) == s
    ensures Reverse(Reverse(s)) == s
  {
  }

  /** Being simple depends neither on the starting corner nor on the direction. */
  lemma SimpleOfRing(polygon: seq<LatLng>, k: nat)
    requires k <= |polygon|
    ensures Simple(Rotate(polygon, k)) <==> Simple(polygon)
    ensures Simple(Reverse(polygon)) <==> Simple(polygon)
  {
    RotateBack(polygon, k);
    if Simple(polygon) {
      SimpleRotated(polygon, k);
      SimpleReversed(polygon);
    }
    if Simple(Rotate(polygon, k)) {
      SimpleRotated(Rotate(polygon, k), |polygon| - k);
    }
    if Simple(Reverse(polygon)) {
      SimpleReversed(Reverse(polygon));
    }
  }

  // ---- Area ----------------------------------------------------------------------------

  function Shoelace(e: Edge): real { e.a.x * e.b.y - e.b.x * e.a.y }

  function TwiceArea(ring: seq<Point>): real { Sum(Edges(ring), Shoelace) }

  function Abs(x: real): real { if x < 0.0 then -x else x }

  function HalfSize(x: real): real { Abs(x) / 2.0 }

  function AreaSquareMetres(earth: Earth, polygon: seq<LatLng>): real
    requires polygon != []
  {
    HalfSize(TwiceArea(ProjectRing(earth, CornerAverage(polygon), polygon)))
  }

  function StepX(e: Edge): real { e.b.x - e.a.x }

  function StepY(e: Edge): real { e.b.y - e.a.y }

  lemma {:induction false} StepsTelescope(ring: seq<Point>, k: nat)
    requires k < |ring|
    ensures Sum(Edges(ring)[..k], StepX) == ring[k].x - ring[0].x
    ensures Sum(Edges(ring)[..k], StepY) == ring[k].y - ring[0].y
  {
    if k > 0 {
      StepsTelescope(ring, k - 1);
      assert Edges(ring)[..k][..k - 1] == Edges(ring)[..k - 1];
      assert Edges(ring)[..k][k - 1] == Edge(ring[k - 1], ring[k]);
    }
  }

  /** Round a closed ring the steps cancel. */
  lemma StepsCancel(ring: seq<Point>)
    ensures Sum(Edges(ring), StepX) == 0.0 && Sum(Edges(ring), StepY) == 0.0
  {
    if ring != [] {
      var n := |ring|;
      StepsTelescope(ring, n - 1);
      assert Edges(ring)[n - 1] == Edge(ring[n - 1], ring[0]);
    }
  }

  /** The shoelace sum of a scaled ring, from the sums s, dx and dy of the ring itself. */
  function ScaledShoelace(o: Point, kx: real, ky: real, s: real, dx: real, dy: real): real {
    kx * ky * (s + o.y * dx - o.x * dy)
  }

  lemma ShoelaceScaled(e: Edge, o: Point, kx: real, ky: real)
    ensures Shoelace(ScaledEdge(e, o, kx, ky)) == ScaledShoelace(o, kx, ky, Shoelace(e), StepX(e), StepY(e))
  {
    ShoelaceProduct(e.a.x - o.x, e.a.y - o.y, e.b.x - o.x, e.b.y - o.y, kx, ky);
    ShoelaceShift(e.a.x, e.a.y, e.b.x, e.b.y, o.x, o.y);
  }

  lemma ShoelaceProduct(ax: real, ay: real, bx: real, bY: real, kx: real, ky: real)
    ensures (ax * kx) * (bY * ky) - (bx * kx) * (ay * ky) == kx * ky * (ax * bY - bx * ay)
  {
    assert (ax * kx) * (bY * ky) == kx * ky * (ax * bY);
    assert (bx * kx) * (ay * ky) == kx * ky * (bx * ay);
  }

  lemma ShoelaceShift(ax: real, ay: real, bx: real, bY: real, ox: real, oy: real)
    ensures (ax - ox) * (bY - oy) - (bx - ox) * (ay - oy) == ax * bY - bx * ay + oy * (bx - ax) - ox * (bY - ay)
  {
  }

  function Scaler(o: Point, kx: real, ky: real): Edge -> Edge {
    (e: Edge) => ScaledEdge(e, o, kx, ky)
  }

  lemma ScaledShoelaceAdds(o: Point, kx: real, ky: real, s: real, dx: real, dy: real, s': real, dx': real, dy': real)
    ensures ScaledShoelace(o, kx, ky, s, dx, dy) + ScaledShoelace(o, kx, ky, s', dx', dy')
         == ScaledShoelace(o, kx, ky, s + s', dx + dx', dy + dy')
  {
    assert o.y * dx + o.y * dx' == o.y * (dx + dx') && o.x * dy + o.x * dy' == o.x * (dy + dy');
  }

  lemma {:induction false} SumScaled(es: seq<Edge>, o: Point, kx: real, ky: real)
    ensures Sum(Map(Scaler(o, kx, ky), es), Shoelace)
         == ScaledShoelace(o, kx, ky, Sum(es, Shoelace), Sum(es, StepX), Sum(es, StepY))
  {
    if es != [] {
      var front, e := es[..|es| - 1], es[|es| - 1];
      assert Map(Scaler(o, kx, ky), es)[..|es| - 1] == Map(Scaler(o, kx, ky), front);
      SumScaled(front, o, kx, ky);
      ShoelaceScaled(e, o, kx, ky);
      ScaledShoelaceAdds(o, kx, ky, Sum(front, Shoelace), Sum(front, StepX), Sum(front, StepY),
                         Shoelace(e), StepX(e), StepY(e));
    }
  }

  lemma ProjectedEdges(earth: Earth, origin: LatLng, polygon: seq<LatLng>)
    ensures Edges(ProjectRing(earth, origin, polygon))
         == Map(Scaler(Chart(origin), earth.East(origin.lat), earth.North()), ChartEdges(polygon))
  {
    forall i | 0 <= i < |polygon|
      ensures Edges(ProjectRing(earth, origin, polygon))[i]
           == ScaledEdge(ChartEdges(polygon)[i], Chart(origin), earth.East(origin.lat), earth.North())
    {
      ProjectedEdge(earth, origin, polygon, i);
    }
  }

  /** An area with both scales applied. */
  function Stretched(kx: real, ky: real, area: real): real { kx * ky * area }

  lemma NoShift(o: Point, kx: real, ky: real, s: real)
    ensures ScaledShoelace(o, kx, ky, s, 0.0, 0.0) == Stretched(kx, ky, s)
  {
    assert o.y * 0.0 == 0.0 && o.x * 0.0 == 0.0;
  }

  lemma ScaledRing(ring: seq<Point>, o: Point, kx: real, ky: real)
    ensures Sum(Map(Scaler(o, kx, ky), Edges(ring)), Shoelace) == Stretched(kx, ky, TwiceArea(ring))
  {
    SumScaled(Edges(ring), o, kx, ky);
    StepsCancel(ring);
    NoShift(o, kx, ky, TwiceArea(ring));
  }

  /** The shoelace sum does not depend on the origin of the projection, only on its two scales. */
  lemma ShoelaceOriginFree(earth: Earth, origin: LatLng, polygon: seq<LatLng>, kx: real, ky: real)
    requires kx == earth.East(origin.lat) && ky == earth.North()
    ensures TwiceArea(ProjectRing(earth, origin, polygon)) == Stretched(kx, ky, TwiceArea(Map(Chart, polygon)))
  {
    ProjectedEdges(earth, origin, polygon);
    ScaledRing(Map(Chart, polygon), Chart(origin), kx, ky);
  }

  /** The triangles of a fan from the first corner over the first n corners: twice their signed areas, added up. */
  function TwiceFan(ring: seq<Point>, n: nat): real
    requires n <= |ring|
  {
    if n < 3 then 0.0 else TwiceFan(ring, n - 1) + Orientation(ring[0], ring[n - 2], ring[n - 1])
  }

  lemma TriangleShoelace(o: Point, a: Point, b: Point)
    ensures Orientation(o, a, b) == Shoelace(Edge(a, b)) + Shoelace(Edge(b, o)) - Shoelace(Edge(a, o))
  {
  }

  lemma {:induction false} FanPath(ring: seq<Point>, k: nat)
    requires k < |ring|
    ensures Sum(Edges(ring)[..k], Shoelace) == TwiceFan(ring, k + 1) - Shoelace(Edge(ring[k], ring[0]))
  {
    if k > 0 {
      FanPath(ring, k - 1);
      assert Edges(ring)[..k][..k - 1] == Edges(ring)[..k - 1];
      assert Edges(ring)[..k][k - 1] == Edge(ring[k - 1], ring[k]);
      TriangleShoelace(ring[0], ring[k - 1], ring[k]);
      FanStep(ring, k);
    }
  }

  lemma FanStep(ring: seq<Point>, k: nat)
    requires 0 < k < |ring|
    ensures TwiceFan(ring, k + 1) == TwiceFan(ring, k) + Orientation(ring[0], ring[k - 1], ring[k])
  {
    if k == 1 {
      OrientationOfEnds(ring[0], ring[1]);
      assert Orientation(ring[0], ring[0], ring[1]) == 0.0;
    }
  }

  /** The shoelace sum is the area of the triangles that the outline is cut into from one corner. */
  lemma ShoelaceIsFan(ring: seq<Point>)
    ensures TwiceArea(ring) == TwiceFan(ring, |ring|)
  {
    if ring != [] {
      FanPath(ring, |ring| - 1);
      assert Edges(ring)[|ring| - 1] == Edge(ring[|ring| - 1], ring[0]);
    }
  }

  /** The area is that of the outline in degrees, times the metres per degree both ways. */
  lemma AreaOnChart(earth: Earth, polygon: seq<LatLng>, kx: real, ky: real)
    requires polygon != [] && kx == earth.East(CornerAverage(polygon).lat) && ky == earth.North()
    ensures AreaSquareMetres(earth, polygon) == HalfSize(Stretched(kx, ky, TwiceArea(Map(Chart, polygon))))
  {
    ShoelaceOriginFree(earth, CornerAverage(polygon), polygon, kx, ky);
  }

  lemma AverageOfRing(polygon: seq<LatLng>, k: nat)
    requires polygon != [] && k <= |polygon|
    ensures CornerAverage(Rotate(polygon, k)) == CornerAverage(polygon)
    ensures CornerAverage(Reverse(polygon)) == CornerAverage(polygon)
  {
    RotateMultiset(polygon, k);
    ReverseMultiset(polygon);
    SumPermutes(Rotate(polygon, k), polygon, LatOf);
    SumPermutes(Rotate(polygon, k), polygon, LngOf);
    SumPermutes(Reverse(polygon), polygon, LatOf);
    SumPermutes(Reverse(polygon), polygon, LngOf);
  }

  lemma TwiceAreaOfRing(ring: seq<Point>, k: nat)
    requires k <= |ring|
    ensures TwiceArea(Rotate(ring, k)) == TwiceArea(ring)
    ensures TwiceArea(Reverse(ring)) == -TwiceArea(ring)
  {
    SumRotated(ring, k, Shoelace);
    SumReversed(ring, Shoelace);
  }

  /** The area depends neither on the starting corner nor on the direction. */
  lemma AreaOfRing(earth: Earth, polygon: seq<LatLng>, k: nat)
    requires polygon != [] && k <= |polygon|
    ensures AreaSquareMetres(earth, Rotate(polygon, k)) == AreaSquareMetres(earth, polygon)
    ensures AreaSquareMetres(earth, Reverse(polygon)) == AreaSquareMetres(earth, polygon)
  {
    AverageOfRing(polygon, k);
    ProjectRotates(earth, CornerAverage(polygon), polygon, k);
    TwiceAreaOfRing(ProjectRing(earth, CornerAverage(polygon), polygon), k);
  }

  // ---- The stored form -----------------------------------------------------------------

  const COORDINATE_STEPS := 10000000.0  // seven decimals
  const POLYGON_MIN_AREA_M2 := 400.0
  const RADIUS_MAX_METRES := 5000.0

  datatype OutlineError = TooFewCorners | NotSimple | TooSmall | TooLarge

  function RoundCoordinate(x: real): real { RoundTo(x, COORDINATE_STEPS) }

  function RoundCorner(p: LatLng): LatLng { LatLng(RoundCoordinate(p.lat), RoundCoordinate(p.lng)) }

  function RoundCorners(value: seq<LatLng>): seq<LatLng> { Map(RoundCorner, value) }

  /** Drops a repeated first corner from the end. */
  function Opened(corners: seq<LatLng>): seq<LatLng> {
    if |corners| > MIN_POLYGON_VERTICES && corners[0] == corners[|corners| - 1]
    then corners[..|corners| - 1] else corners
  }

  function Validate(earth: Earth, ring: seq<LatLng>): Result<seq<LatLng>, OutlineError> {
    if |ring| < MIN_POLYGON_VERTICES then Err(TooFewCorners)
    else if !PassesSimpleTest(earth, ring) then Err(NotSimple)
    else
      var area := AreaSquareMetres(earth, ring);
      if area < POLYGON_MIN_AREA_M2 then Err(TooSmall)
      else if area > earth.pi * RADIUS_MAX_METRES * RADIUS_MAX_METRES then Err(TooLarge)
      else Ok(ring)
  }

  // ---- Areas within the limits -----------------------------------------------------------

  /** Pi and the cosine of the latitude, as they are on the globe near the equator, within a margin. */
  predicate NearEquator(earth: Earth, lat: real) {
    3.1 <= earth.pi <= 3.2 && 0.9 <= earth.cosine(lat) <= 1.0
  }

  lemma ScalesBounded(earth: Earth, lat: real) returns (kx: real, ky: real)
    requires NearEquator(earth, lat)
    ensures kx == earth.East(lat) && ky == earth.North()
    ensures 98000.0 <= kx <= 113300.0 && 109000.0 <= ky <= 113300.0
  {
    ky := earth.North();
    kx := ProductBetween(earth.cosine(lat), 0.9, 1.0, ky);
  }

  /** An outline of those square degrees, twice over, is neither too small nor too large. */
  lemma AreaWithinLimits(earth: Earth, polygon: seq<LatLng>, lat: real)
    requires polygon != [] && lat == CornerAverage(polygon).lat && NearEquator(earth, lat)
    requires 0.0000001 <= Abs(TwiceArea(Map(Chart, polygon))) <= 0.01
    ensures POLYGON_MIN_AREA_M2 <= AreaSquareMetres(earth, polygon)
         <= earth.pi * RADIUS_MAX_METRES * RADIUS_MAX_METRES
  {
    AreaBounded(earth, polygon, lat);
    LimitBelow(earth.pi);
  }

  lemma AreaBounded(earth: Earth, polygon: seq<LatLng>, lat: real)
    requires polygon != [] && lat == CornerAverage(polygon).lat && NearEquator(earth, lat)
    requires 0.0000001 <= Abs(TwiceArea(Map(Chart, polygon))) <= 0.01
    ensures 500.0 <= AreaSquareMetres(earth, polygon) <= 65000000.0
  {
    var kx, ky := AreaOnScales(earth, polygon, lat);
    ScaledHalf(kx, ky, TwiceArea(Map(Chart, polygon)));
  }

  lemma AreaOnScales(earth: Earth, polygon: seq<LatLng>, lat: real) returns (kx: real, ky: real)
    requires polygon != [] && lat == CornerAverage(polygon).lat && NearEquator(earth, lat)
    ensures 98000.0 <= kx <= 113300.0 && 109000.0 <= ky <= 113300.0
    ensures AreaSquareMetres(earth, polygon) == HalfSize(Stretched(kx, ky, TwiceArea(Map(Chart, polygon))))
  {
    kx, ky := ScalesBounded(earth, lat);
    AreaOnChart(earth, polygon, kx, ky);
  }

  lemma LimitBelow(pi: real)
    requires pi >= 3.1
    ensures pi * RADIUS_MAX_METRES * RADIUS_MAX_METRES >= 77500000.0
  {
  }

  lemma ScaledHalf(kx: real, ky: real, twice: real)
    requires 98000.0 <= kx <= 113300.0 && 109000.0 <= ky <= 113300.0
    requires 0.0000001 <= Abs(twice) <= 0.01
    ensures 500.0 <= HalfSize(Stretched(kx, ky, twice)) <= 65000000.0
  {
    var scale := ProductBetween(kx, 98000.0, 113300.0, ky);
    var product := ProductBetween(scale, 10000000000.0, 13000000000.0, Abs(twice));
    SizeOfProduct(scale, twice, product);
    assert Stretched(kx, ky, twice) == scale * twice;
  }

  lemma ProductBetween(x: real, low: real, high: real, y: real) returns (product: real)
    requires low <= x <= high && y >= 0.0
    ensures product == x * y && low * y <= product <= high * y
  {
    product := x * y;
    var up := NonNegativeProduct(x - low, y);
    var down := NonNegativeProduct(high - x, y);
  }

  lemma SizeOfProduct(x: real, y: real, product: real)
    requires x >= 0.0 && product == x * Abs(y)
    ensures Abs(x * y) == product
  {
    var size := NonNegativeProduct(x, Abs(y));
    if y < 0.0 {
      assert x * y == -(x * -y);
    }
  }

  function NormalisePolygon(earth: Earth, value: seq<LatLng>): Result<seq<LatLng>, OutlineError> {
    Validate(earth, Opened(RoundCorners(value)))
  }

  lemma RoundCornersFixed(value: seq<LatLng>)
    ensures RoundCorners(RoundCorners(value)) == RoundCorners(value)
  {
    forall i | 0 <= i < |value|
      ensures RoundCorner(RoundCorner(value[i])) == RoundCorner(value[i])
    {
      RoundToIdempotent(value[i].lat, COORDINATE_STEPS);
      RoundToIdempotent(value[i].lng, COORDINATE_STEPS);
    }
  }

  lemma ValidIsOpen(earth: Earth, ring: seq<LatLng>)
    requires Validate(earth, ring).Ok?
    ensures Opened(ring) == ring && Simple(ring)
  {
    SimpleIff(earth, ring);
  }

  /** Rounded corners stay rounded when opened, turned or reversed. */
  lemma RoundedParts(value: seq<LatLng>, k: nat)
    requires RoundCorners(value) == value && k <= |value|
    ensures RoundCorners(Rotate(value, k)) == Rotate(value, k)
    ensures RoundCorners(Reverse(value)) == Reverse(value)
    ensures RoundCorners(value[..k]) == value[..k]
  {
    assert forall i :: 0 <= i < |value| ==> RoundCorner(value[i]) == value[i];
  }

  lemma NormalisedIsRounded(earth: Earth, value: seq<LatLng>)
    requires NormalisePolygon(earth, value).Ok?
    ensures RoundCorners(NormalisePolygon(earth, value).value) == NormalisePolygon(earth, value).value
  {
    RoundCornersFixed(value);
    if value != [] {
      RoundedParts(RoundCorners(value), |value| - 1);
    }
  }

  /** A stored outline is its own normal form. */
  lemma NormaliseIdempotent(earth: Earth, value: seq<LatLng>)
    requires NormalisePolygon(earth, value).Ok?
    ensures NormalisePolygon(earth, NormalisePolygon(earth, value).value) == NormalisePolygon(earth, value)
  {
    NormalisedIsRounded(earth, value);
    ValidIsOpen(earth, NormalisePolygon(earth, value).value);
  }

  lemma ValidateOfRing(earth: Earth, ring: seq<LatLng>, k: nat)
    requires ring != [] && k <= |ring|
    ensures Validate(earth, Rotate(ring, k)).Ok? == Validate(earth, ring).Ok?
    ensures Validate(earth, Reverse(ring)).Ok? == Validate(earth, ring).Ok?
  {
    SimpleOfRing(ring, k);
    SimpleIff(earth, ring);
    SimpleIff(earth, Rotate(ring, k));
    SimpleIff(earth, Reverse(ring));
    AreaOfRing(earth, ring, k);
  }

  lemma ValidRoundedIsNormal(earth: Earth, ring: seq<LatLng>)
    requires Validate(earth, ring).Ok? && RoundCorners(ring) == ring
    ensures NormalisePolygon(earth, ring) == Ok(ring)
  {
    ValidIsOpen(earth, ring);
  }

  /** A stored outline is also valid from any other starting corner and in the other direction. */
  lemma NormaliseOfRing(earth: Earth, value: seq<LatLng>, k: nat)
    requires NormalisePolygon(earth, value).Ok? && k <= |NormalisePolygon(earth, value).value|
    ensures var ring := NormalisePolygon(earth, value).value;
            && NormalisePolygon(earth, Rotate(ring, k)) == Ok(Rotate(ring, k))
            && NormalisePolygon(earth, Reverse(ring)) == Ok(Reverse(ring))
  {
    var ring := NormalisePolygon(earth, value).value;
    NormalisedIsRounded(earth, value);
    RoundedParts(ring, k);
    ValidateOfRing(earth, ring, k);
    ValidRoundedIsNormal(earth, Rotate(ring, k));
    ValidRoundedIsNormal(earth, Reverse(ring));
  }

  /** The open form has one or at least three corners and, if it ends at its own first corner after
      rounding, does not close a simple outline there. */
  ghost predicate FormsAgree(value: seq<LatLng>)
    requires value != []
  {
    var n, rounded := |value|, RoundCorners(value);
    && n != 2
    && (n <= 3 || rounded[0] != rounded[n - 1] || !Simple(rounded[..n - 1]))
  }

  /** When the open and the closed form of a ring normalise alike. */
  lemma OpenAndClosedForms(earth: Earth, value: seq<LatLng>)
    requires value != []
    ensures NormalisePolygon(earth, value) == NormalisePolygon(earth, value + [value[0]])
        <==> FormsAgree(value)
  {
    var n, rounded := |value|, RoundCorners(value);
    var closed := RoundCorners(value + [value[0]]);
    assert closed == rounded + [rounded[0]];
    assert closed[..n] == rounded;
    if n == 1 {
    } else if n == 2 {
      SimpleIff(earth, closed);
      assert closed[0] == closed[2];
    } else {
      assert Opened(closed) == rounded;
      if n > 3 && rounded[0] == rounded[n - 1] {
        SimpleIff(earth, rounded);
        SimpleIff(earth, rounded[..n - 1]);
        assert Validate(earth, rounded) == Err(NotSimple);
      }
    }
  }
}

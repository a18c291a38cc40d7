/** What ray casting decides, in whatever direction the ray goes. */
module RayCasting {
  // Between two points that a segment joins without passing through a corner, being inside changes exactly
  // when the segment crosses an odd number of edges; and beyond the corners nothing is inside. So the
  // direction of the ray, the scale and the projection do not matter.

  import opened Reals
  import opened Folds
  import opened Plane
  import opened Rings
  import opened Geofence
  import opened Outlines

  // ---- Rays without the projection -------------------------------------------------------

  predicate Apart(y: real, e: Edge) { (e.a.y > y) != (e.b.y > y) }

  /** How far along the edge it meets the level y. */
  function AtLevel(y: real, e: Edge): (t: real)
    requires Apart(y, e)
    ensures 0.0 <= t <= 1.0 && Along(e.a, e.b, t).y == y
  {
    var dy := e.b.y - e.a.y;
    var t := (y - e.a.y) / dy;
    assert t * dy == y - e.a.y;
    FractionInUnit(y - e.a.y, dy, t);
    t
  }

  lemma FractionInUnit(u: real, d: real, t: real)
    requires t * d == u && d != 0.0
    requires (0.0 <= u <= d) || (d <= u <= 0.0)
    ensures 0.0 <= t <= 1.0
  {
    if t < 0.0 {
      if d > 0.0 { var _ := PositiveProduct(-t, d); } else { var _ := PositiveProduct(-t, -d); }
    }
    if t > 1.0 {
      if d > 0.0 { var _ := PositiveProduct(t - 1.0, d); } else { var _ := PositiveProduct(t - 1.0, -d); }
    }
  }

  /** The edges that a ray going east from p crosses. */
  function EastFrom(p: Point): Edge -> bool {
    (e: Edge) => Apart(p.y, e) && Along(e.a, e.b, AtLevel(p.y, e)).x > p.x
  }

  lemma ScaledSign(v: real, o: real, k: real)
    requires k > 0.0
    ensures (v - o) * k > 0.0 <==> v > o
  {
    if v <= o {
      assert (o - v) * k >= 0.0;
    }
  }

  lemma ScaledHit(e: Edge, p: Point, kx: real, ky: real)
    requires kx > 0.0 && ky > 0.0
    ensures RightOf(0.0)(ScaledEdge(e, p, kx, ky)) == EastFrom(p)(e)
  {
    HitIff(ScaledEdge(e, p, kx, ky), e, p, kx, ky);
  }

  lemma HitIff(f: Edge, e: Edge, o: Point, kx: real, ky: real)
    requires kx > 0.0 && ky > 0.0
    requires f.a == Scaled(e.a, o, kx, ky) && f.b == Scaled(e.b, o, kx, ky)
    ensures RightOf(0.0)(f) == EastFrom(o)(e)
  {
    ScaledApart(f, e, o, kx, ky);
    if Apart(o.y, e) {
      ScaledEast(f, e, o, kx, ky, AtLevel(o.y, e));
    }
  }

  lemma ScaledApart(f: Edge, e: Edge, o: Point, kx: real, ky: real)
    requires kx > 0.0 && ky > 0.0
    requires f.a == Scaled(e.a, o, kx, ky) && f.b == Scaled(e.b, o, kx, ky)
    ensures Straddles(f) == Apart(o.y, e)
  {
    ScaledSign(e.a.y, o.y, ky);
    ScaledSign(e.b.y, o.y, ky);
  }

  lemma CrossingIs(f: Edge, t: real)
    requires Straddles(f) && t * (f.b.y - f.a.y) == 0.0 - f.a.y
    ensures CrossingX(f) == f.a.x + t * (f.b.x - f.a.x)
  {
    var u, dx, dy := 0.0 - f.a.y, f.b.x - f.a.x, f.b.y - f.a.y;
    Quotient(u, dx, dy, t);
    assert CrossingX(f) == f.a.x + u * dx / dy;
  }

  /** The crossing of an edge scaled around o, from the fraction t at which the edge is level with o. */
  lemma ScaledEast(f: Edge, e: Edge, o: Point, kx: real, ky: real, t: real)
    requires kx > 0.0 && ky > 0.0 && Straddles(f)
    requires f.a == Scaled(e.a, o, kx, ky) && f.b == Scaled(e.b, o, kx, ky)
    requires t * (e.b.y - e.a.y) == o.y - e.a.y
    ensures CrossingX(f) > 0.0 <==> Along(e.a, e.b, t).x > o.x
  {
    ScaledDifference(e.a.y, e.b.y, o.y, ky);
    ScaledFraction(t, e.b.y - e.a.y, o.y - e.a.y, ky);
    CrossingIs(f, t);
    EastIff(f.a.x, f.b.x, e.a.x, e.b.x, o.x, kx, t);
  }

  lemma EastIff(u: real, v: real, a: real, b: real, o: real, k: real, t: real)
    requires k > 0.0 && u == (a - o) * k && v == (b - o) * k
    ensures u + t * (v - u) > 0.0 <==> a + t * (b - a) > o
  {
    ScaledAlong1(u, v, a, b, t, o, k);
    ScaledSign(a + t * (b - a), o, k);
  }

  lemma ScaledFraction(t: real, d: real, u: real, k: real)
    requires t * d == u
    ensures t * (d * k) == u * k
  {
  }

  lemma ScaledDifference(a: real, b: real, o: real, k: real)
    ensures (b - o) * k - (a - o) * k == (b - a) * k
  {
  }

  /** Inside is a matter of the unscaled outline: neither the globe nor the projection decides it. */
  lemma InsideOnChart(earth: Earth, polygon: seq<LatLng>, point: LatLng)
    ensures Inside(earth, polygon, point) <==> Count(ChartEdges(polygon), EastFrom(Chart(point))) % 2 == 1
  {
    var kx, ky, o := earth.East(point.lat), earth.North(), Chart(point);
    ScalesPositive(earth, point.lat);
    ProjectedEdges(earth, point, polygon);
    forall e ensures RightOf(0.0)(Scaler(o, kx, ky)(e)) == EastFrom(o)(e) {
      ScaledHit(e, o, kx, ky);
    }
    CountMap(ChartEdges(polygon), Scaler(o, kx, ky), RightOf(0.0), EastFrom(o));
  }

  // ---- One edge and one segment ----------------------------------------------------------

  /** The edge meets the segment pq properly or not at all: no end of either lies on the other. */
  predicate Clean(p: Point, q: Point, e: Edge) {
    SegmentsCross(p, q, e.a, e.b) ==>
      && Orientation(p, q, e.a) != 0.0 && Orientation(p, q, e.b) != 0.0
      && Orientation(e.a, e.b, p) != 0.0 && Orientation(e.a, e.b, q) != 0.0
  }

  function CrossedBy(p: Point, q: Point): Edge -> bool {
    (e: Edge) => SegmentsCross(p, q, e.a, e.b)
  }

  predicate Right(p: Point, q: Point, v: Point) { Orientation(p, q, v) < 0.0 }

  /** At the level of either end of a rising segment, its right is the east of that end. */
  lemma RightIsEast(p: Point, q: Point, v: Point)
    requires p.y < q.y
    ensures v.y == p.y ==> (Right(p, q, v) <==> v.x > p.x)
    ensures v.y == q.y ==> (Right(p, q, v) <==> v.x > q.x)
  {
    var h := q.y - p.y;
    if v.y == p.y {
      assert Orientation(p, q, v) == -(h * (v.x - p.x));
      ScaledSign(v.x, p.x, h);
    }
    if v.y == q.y {
      assert Orientation(p, q, v) == -(h * (v.x - q.x)) by {
        assert (q.x - p.x) * h - h * (v.x - p.x) == -(h * (v.x - q.x));
      }
      ScaledSign(v.x, q.x, h);
    }
  }

  /** A point of the line through a rising segment, at a level between its ends, is on the segment. */
  lemma LevelOnSegment(p: Point, q: Point, m: Point)
    requires p.y < q.y && p.y <= m.y <= q.y && Orientation(p, q, m) == 0.0
    ensures On(m, p, q)
  {
    var u := LineCoordinate(p, q, m);
    assert u * (q.y - p.y) == m.y - p.y;
    FractionInUnit(m.y - p.y, q.y - p.y, u);
  }

  /** The right of pq within its levels, the lower one excluded. */
  function RightBand(p: Point, q: Point): Point -> bool {
    (v: Point) => p.y < v.y <= q.y && Right(p, q, v)
  }

  /** Where the edge enters the levels of pq, coming from its first end. */
  function Enter(p: Point, q: Point, e: Edge): real
    requires p.y < q.y && !(e.a.y <= p.y && e.b.y <= p.y) && !(e.a.y > q.y && e.b.y > q.y)
  {
    if e.a.y <= p.y then AtLevel(p.y, e) else if e.a.y > q.y then AtLevel(q.y, e) else 0.0
  }

  /** And where it leaves them. */
  function Leave(p: Point, q: Point, e: Edge): real
    requires p.y < q.y && !(e.a.y <= p.y && e.b.y <= p.y) && !(e.a.y > q.y && e.b.y > q.y)
  {
    if e.b.y <= p.y then AtLevel(p.y, e) else if e.b.y > q.y then AtLevel(q.y, e) else 1.0
  }

  predicate Passes(p: Point, q: Point, e: Edge) {
    p.y < q.y && !(e.a.y <= p.y && e.b.y <= p.y) && !(e.a.y > q.y && e.b.y > q.y)
  }

  /** The rays from p and q and the band between them, for an edge that passes the levels of pq. */
  lemma EndsDecide(p: Point, q: Point, e: Edge)
    requires Passes(p, q, e)
    ensures ((EastFrom(p)(e) != EastFrom(q)(e)) != (RightBand(p, q)(e.a) != RightBand(p, q)(e.b)))
         == (Right(p, q, Along(e.a, e.b, Enter(p, q, e))) != Right(p, q, Along(e.a, e.b, Leave(p, q, e))))
  {
    assert Along(e.a, e.b, 0.0) == e.a && Along(e.a, e.b, 1.0) == e.b;
    if Apart(p.y, e) {
      RightIsEast(p, q, Along(e.a, e.b, AtLevel(p.y, e)));
    }
    if Apart(q.y, e) {
      RightIsEast(p, q, Along(e.a, e.b, AtLevel(q.y, e)));
    }
  }

  lemma LevelOrder(a: real, b: real, s: real, u: real, low: real, high: real)
    requires low == a + s * (b - a) && high == a + u * (b - a) && low <= high && a < b
    ensures s <= u
  {
    if u < s {
      var _ := PositiveProduct(s - u, b - a);
    }
  }

  lemma LevelOrderDown(a: real, b: real, s: real, u: real, high: real, low: real)
    requires high == a + s * (b - a) && low == a + u * (b - a) && low <= high && a > b
    ensures s <= u
  {
    if u < s {
      var _ := PositiveProduct(s - u, a - b);
    }
  }

  /** Whatever part of the edge is at the levels of pq lies between where it enters and leaves. */
  lemma WithinPassage(p: Point, q: Point, e: Edge, u: real)
    requires Passes(p, q, e) && 0.0 <= u <= 1.0
    requires p.y <= Along(e.a, e.b, u).y <= q.y
    ensures Enter(p, q, e) <= u <= Leave(p, q, e)
  {
    var level := Along(e.a, e.b, u).y;
    if e.a.y <= p.y {
      LevelOrder(e.a.y, e.b.y, AtLevel(p.y, e), u, p.y, level);
    } else if e.a.y > q.y {
      LevelOrderDown(e.a.y, e.b.y, AtLevel(q.y, e), u, q.y, level);
    }
    if e.b.y <= p.y {
      LevelOrderDown(e.a.y, e.b.y, u, AtLevel(p.y, e), level, p.y);
    } else if e.b.y > q.y {
      LevelOrder(e.a.y, e.b.y, u, AtLevel(q.y, e), level, q.y);
    }
  }

  lemma PassageLevels(p: Point, q: Point, e: Edge)
    requires Passes(p, q, e)
    ensures 0.0 <= Enter(p, q, e) <= 1.0 && 0.0 <= Leave(p, q, e) <= 1.0
    ensures p.y <= Along(e.a, e.b, Enter(p, q, e)).y <= q.y
    ensures p.y <= Along(e.a, e.b, Leave(p, q, e)).y <= q.y
  {
    assert Along(e.a, e.b, 0.0) == e.a && Along(e.a, e.b, 1.0) == e.b;
  }

  /** Between values of different sign an affine function is zero somewhere. */
  lemma ZeroSomewhere(u: real, v: real) returns (w: real)
    requires (u < 0.0) != (v < 0.0)
    ensures 0.0 <= w <= 1.0 && u + w * (v - u) == 0.0
  {
    w := u / (u - v);
    assert w * (u - v) == u;
    FractionInUnit(u, u - v, w);
    assert w * (v - u) == -(w * (u - v));
  }

  /** If the sides differ where the edge enters and leaves, it meets the segment in between. */
  lemma DifferentSidesMeet(p: Point, q: Point, e: Edge, s: real, t: real)
    requires p.y < q.y && 0.0 <= s <= 1.0 && 0.0 <= t <= 1.0
    requires p.y <= Along(e.a, e.b, s).y <= q.y && p.y <= Along(e.a, e.b, t).y <= q.y
    requires Right(p, q, Along(e.a, e.b, s)) != Right(p, q, Along(e.a, e.b, t))
    ensures SegmentsCross(p, q, e.a, e.b)
  {
    var c, d := Along(e.a, e.b, s), Along(e.a, e.b, t);
    var w := SidesJoin(p, q, c, d);
    var m := Along(c, d, w);
    AlongAlong(e.a, e.b, s, t, w);
    BetweenEnds(s, t, w);
    assert On(m, e.a, e.b);
    CrossIffMeet(p, q, e.a, e.b);
    assert Meet(Edge(p, q), Edge(e.a, e.b));
  }

  lemma HeightAlong(c: Point, d: Point, w: real, low: real, high: real)
    requires 0.0 <= w <= 1.0 && low <= c.y <= high && low <= d.y <= high
    ensures low <= Along(c, d, w).y <= high
  {
    BetweenEnds(c.y, d.y, w);
  }

  lemma SidesJoin(p: Point, q: Point, c: Point, d: Point) returns (w: real)
    requires p.y < q.y && p.y <= c.y <= q.y && p.y <= d.y <= q.y
    requires Right(p, q, c) != Right(p, q, d)
    ensures 0.0 <= w <= 1.0 && On(Along(c, d, w), p, q)
  {
    w := ZeroSomewhere(Orientation(p, q, c), Orientation(p, q, d));
    OrientationAlong(p, q, c, d, w);
    HeightAlong(c, d, w, p.y, q.y);
    LevelOnSegment(p, q, Along(c, d, w));
  }

  lemma AffineSign(a: real, b: real, u: real, s: real)
    requires a != 0.0 && b != 0.0 && (a > 0.0) != (b > 0.0)
    requires a + u * (b - a) == 0.0
    ensures s < u ==> (a + s * (b - a) < 0.0 <==> a < 0.0)
    ensures s > u ==> (a + s * (b - a) < 0.0 <==> b < 0.0)
  {
    assert a + s * (b - a) == (s - u) * (b - a);
    if s < u {
      if b > a { var _ := PositiveProduct(u - s, b - a); } else { var _ := PositiveProduct(u - s, a - b); }
    }
    if s > u {
      if b > a { var _ := PositiveProduct(s - u, b - a); } else { var _ := PositiveProduct(s - u, a - b); }
    }
  }

  /** A point of a rising segment at the level of an end is that end. */
  lemma LevelIsEnd(p: Point, q: Point, m: Point)
    requires p.y < q.y && On(m, p, q)
    ensures p.y <= m.y <= q.y
    ensures m.y == p.y ==> m == p
    ensures m.y == q.y ==> m == q
  {
    var v :| 0.0 <= v <= 1.0 && m == Along(p, q, v);
    BetweenEnds(p.y, q.y, v);
    ShareEnds(q.y - p.y, v, m.y - p.y);
  }

  lemma ShareEnds(h: real, v: real, rise: real)
    requires h > 0.0 && rise == v * h
    ensures rise == 0.0 ==> v == 0.0
    ensures rise == h ==> v == 1.0
  {
    if rise == 0.0 {
      Cancel(h, v, 0.0);
    } else if rise == h {
      Cancel(h, v, 1.0);
    }
  }

  /** A proper meeting lies strictly between where the edge enters and where it leaves. */
  lemma MeetingIsInside(p: Point, q: Point, e: Edge, m: Point, u: real)
    requires Passes(p, q, e) && SegmentsCross(p, q, e.a, e.b) && Clean(p, q, e)
    requires On(m, p, q) && 0.0 <= u <= 1.0 && m == Along(e.a, e.b, u)
    ensures Enter(p, q, e) < u < Leave(p, q, e)
  {
    LevelIsEnd(p, q, m);
    WithinPassage(p, q, e, u);
    assert On(m, e.a, e.b);
    OnIsCollinear(m, e.a, e.b);
    OnIsCollinear(m, p, q);
    assert m.y != p.y && m.y != q.y;
    assert Along(e.a, e.b, 0.0) == e.a && Along(e.a, e.b, 1.0) == e.b;
  }

  lemma MeetingDividesSides(p: Point, q: Point, e: Edge)
    requires Passes(p, q, e) && SegmentsCross(p, q, e.a, e.b) && Clean(p, q, e)
    ensures Right(p, q, Along(e.a, e.b, Enter(p, q, e))) != Right(p, q, Along(e.a, e.b, Leave(p, q, e)))
  {
    CrossIffMeet(p, q, e.a, e.b);
    var m :| On(m, p, q) && On(m, e.a, e.b);
    var u :| 0.0 <= u <= 1.0 && m == Along(e.a, e.b, u);
    MeetingIsInside(p, q, e, m, u);
    OnIsCollinear(m, p, q);
    ProperSigns(p, q, e);
    SideBefore(p, q, e, u, Enter(p, q, e));
    SideBefore(p, q, e, u, Leave(p, q, e));
  }

  lemma ProperSigns(p: Point, q: Point, e: Edge)
    requires SegmentsCross(p, q, e.a, e.b) && Clean(p, q, e)
    ensures var a, b := Orientation(p, q, e.a), Orientation(p, q, e.b);
            a != 0.0 && b != 0.0 && (a > 0.0) != (b > 0.0)
  {
  }

  lemma SideBefore(p: Point, q: Point, e: Edge, u: real, s: real)
    requires Orientation(p, q, Along(e.a, e.b, u)) == 0.0
    requires var a, b := Orientation(p, q, e.a), Orientation(p, q, e.b);
             a != 0.0 && b != 0.0 && (a > 0.0) != (b > 0.0)
    ensures s < u ==> (Right(p, q, Along(e.a, e.b, s)) <==> Right(p, q, e.a))
    ensures s > u ==> (Right(p, q, Along(e.a, e.b, s)) <==> Right(p, q, e.b))
  {
    OrientationAlong(p, q, e.a, e.b, u);
    OrientationAlong(p, q, e.a, e.b, s);
    AffineSign(Orientation(p, q, e.a), Orientation(p, q, e.b), u, s);
  }

  /** An edge all below or all above a rising segment does not meet it properly. */
  lemma ElsewhereNoMeeting(p: Point, q: Point, e: Edge)
    requires p.y < q.y && !Passes(p, q, e) && Clean(p, q, e)
    ensures !SegmentsCross(p, q, e.a, e.b)
  {
    CrossIffMeet(p, q, e.a, e.b);
    if Meet(Edge(p, q), Edge(e.a, e.b)) {
      var m :| On(m, p, q) && On(m, e.a, e.b);
      OnIsCollinear(m, e.a, e.b);
      LevelIsEnd(p, q, m);
    }
  }

  /** The two rays and the band account for the edge exactly as the segment does. */
  predicate Accounted(p: Point, q: Point, e: Edge) {
    ((EastFrom(p)(e) != EastFrom(q)(e)) != (RightBand(p, q)(e.a) != RightBand(p, q)(e.b)))
        == SegmentsCross(p, q, e.a, e.b)
  }

  lemma RisingAccounted(p: Point, q: Point, e: Edge)
    requires p.y < q.y && Clean(p, q, e)
    ensures Accounted(p, q, e)
  {
    if Passes(p, q, e) {
      EndsDecide(p, q, e);
      PassageLevels(p, q, e);
      if SegmentsCross(p, q, e.a, e.b) {
        MeetingDividesSides(p, q, e);
      } else if Right(p, q, Along(e.a, e.b, Enter(p, q, e))) != Right(p, q, Along(e.a, e.b, Leave(p, q, e))) {
        DifferentSidesMeet(p, q, e, Enter(p, q, e), Leave(p, q, e));
      }
    } else {
      ElsewhereNoMeeting(p, q, e);
    }
  }

  /** An edge across the level of a segment that goes east meets it where the rays differ. */
  lemma LevelHit(p: Point, q: Point, e: Edge)
    requires p.y == q.y && p.x < q.x && EastFrom(p)(e) != EastFrom(q)(e)
    ensures SegmentsCross(p, q, e.a, e.b)
  {
    var t := AtLevel(p.y, e);
    var m := Along(e.a, e.b, t);
    assert p.x < m.x <= q.x;
    CollinearIsOn(m, p, q);
    assert On(m, e.a, e.b);
    CrossIffMeet(p, q, e.a, e.b);
    assert Meet(Edge(p, q), Edge(e.a, e.b));
  }

  lemma LevelMeeting(p: Point, q: Point, e: Edge)
    requires p.y == q.y && p.x < q.x && SegmentsCross(p, q, e.a, e.b) && Clean(p, q, e)
    ensures EastFrom(p)(e) != EastFrom(q)(e)
  {
    CrossIffMeet(p, q, e.a, e.b);
    var m :| On(m, p, q) && On(m, e.a, e.b);
    OnIsCollinear(m, p, q);
    OnIsCollinear(m, e.a, e.b);
    assert m != p;
    ProperSigns(p, q, e);
    LevelSign(p, q, e.a);
    LevelSign(p, q, e.b);
    HitAt(p.y, e, m);
  }

  lemma LevelSign(p: Point, q: Point, v: Point)
    requires p.y == q.y && p.x < q.x && Orientation(p, q, v) != 0.0
    ensures Orientation(p, q, v) > 0.0 <==> v.y > p.y
  {
    assert Orientation(p, q, v) == (v.y - p.y) * (q.x - p.x);
    ScaledSign(v.y, p.y, q.x - p.x);
  }

  /** The only point of the edge at a level that its ends are on different sides of. */
  lemma HitAt(y: real, e: Edge, m: Point)
    requires Apart(y, e) && On(m, e.a, e.b) && m.y == y
    ensures Along(e.a, e.b, AtLevel(y, e)) == m
  {
    var u :| 0.0 <= u <= 1.0 && m == Along(e.a, e.b, u);
    var t := AtLevel(y, e);
    assert (e.b.y - e.a.y) * u == (e.b.y - e.a.y) * t;
    Cancel(e.b.y - e.a.y, u, t);
  }

  // ---- All edges of a ring ---------------------------------------------------------------

  ghost predicate AllClean(p: Point, q: Point, edges: seq<Edge>) {
    forall i :: 0 <= i < |edges| ==> Clean(p, q, edges[i])
  }

  function BandChanges(p: Point, q: Point): Edge -> bool {
    (e: Edge) => RightBand(p, q)(e.a) != RightBand(p, q)(e.b)
  }

  lemma {:induction false} EvenTogether(edges: seq<Edge>, f: Edge -> bool, g: Edge -> bool, h: Edge -> bool,
                                        c: Edge -> bool)
    requires forall i :: 0 <= i < |edges| ==> ((f(edges[i]) != g(edges[i])) != h(edges[i])) == c(edges[i])
    ensures (Count(edges, f) + Count(edges, g) + Count(edges, h) + Count(edges, c)) % 2 == 0
  {
    if edges != [] {
      EvenTogether(edges[..|edges| - 1], f, g, h, c);
      var e := edges[|edges| - 1];
      assert ((f(e) != g(e)) != h(e)) == c(e);
    }
  }

  function Never(): Edge -> bool { (e: Edge) => false }

  /** The rays from two points differ in parity by the edges that the segment between them crosses. */
  lemma ParityAlong(ring: seq<Point>, p: Point, q: Point)
    requires AllClean(p, q, Edges(ring))
    requires p.y < q.y || (p.y == q.y && p.x < q.x)
    ensures (Count(Edges(ring), EastFrom(p)) + Count(Edges(ring), EastFrom(q))
             + Count(Edges(ring), CrossedBy(p, q))) % 2 == 0
  {
    if p.y < q.y {
      ParityRising(ring, p, q);
    } else {
      ParityLevel(Edges(ring), p, q);
    }
  }

  lemma ParityRising(ring: seq<Point>, p: Point, q: Point)
    requires AllClean(p, q, Edges(ring)) && p.y < q.y
    ensures (Count(Edges(ring), EastFrom(p)) + Count(Edges(ring), EastFrom(q))
             + Count(Edges(ring), CrossedBy(p, q))) % 2 == 0
  {
    var edges := Edges(ring);
    forall i | 0 <= i < |edges|
      ensures ((EastFrom(p)(edges[i]) != EastFrom(q)(edges[i])) != BandChanges(p, q)(edges[i]))
              == CrossedBy(p, q)(edges[i])
    {
      RisingAccounted(p, q, edges[i]);
    }
    EvenTogether(edges, EastFrom(p), EastFrom(q), BandChanges(p, q), CrossedBy(p, q));
    RingParity(ring, RightBand(p, q), BandChanges(p, q));
    EvenRest(Count(edges, EastFrom(p)), Count(edges, EastFrom(q)), Count(edges, BandChanges(p, q)),
             Count(edges, CrossedBy(p, q)));
  }

  lemma EvenRest(a: nat, b: nat, c: nat, d: nat)
    requires (a + b + c + d) % 2 == 0 && c % 2 == 0
    ensures (a + b + d) % 2 == 0
  {
  }

  lemma ParityLevel(edges: seq<Edge>, p: Point, q: Point)
    requires AllClean(p, q, edges) && p.y == q.y && p.x < q.x
    ensures (Count(edges, EastFrom(p)) + Count(edges, EastFrom(q)) + Count(edges, CrossedBy(p, q))) % 2 == 0
  {
    forall i | 0 <= i < |edges|
      ensures ((EastFrom(p)(edges[i]) != EastFrom(q)(edges[i])) != Never()(edges[i])) == CrossedBy(p, q)(edges[i])
    {
      if SegmentsCross(p, q, edges[i].a, edges[i].b) {
        LevelMeeting(p, q, edges[i]);
      } else if EastFrom(p)(edges[i]) != EastFrom(q)(edges[i]) {
        LevelHit(p, q, edges[i]);
      }
    }
    EvenTogether(edges, EastFrom(p), EastFrom(q), Never(), CrossedBy(p, q));
    CountNone(edges, Never());
  }

  lemma TurnedCross(p: Point, q: Point, e: Edge)
    ensures SegmentsCross(q, p, e.a, e.b) == SegmentsCross(p, q, e.a, e.b)
    ensures Clean(p, q, e) ==> Clean(q, p, e)
  {
    CrossIffMeet(p, q, e.a, e.b);
    CrossIffMeet(q, p, e.a, e.b);
    TurnedMeet(p, q, e);
    TurnedMeet(q, p, e);
    TurnedSign(p, q, e.a);
    TurnedSign(p, q, e.b);
  }

  lemma TurnedMeet(p: Point, q: Point, e: Edge)
    ensures Meet(Edge(p, q), Edge(e.a, e.b)) ==> Meet(Edge(q, p), Edge(e.a, e.b))
  {
    if Meet(Edge(p, q), Edge(e.a, e.b)) {
      var m :| On(m, p, q) && On(m, e.a, e.b);
      FlipOn(m, p, q);
    }
  }

  lemma TurnedSign(p: Point, q: Point, v: Point)
    ensures Orientation(q, p, v) == -Orientation(p, q, v)
  {
  }

  /** Of two points joined by a segment that no corner lies on and that ends on no edge, exactly one
      is inside when the segment crosses an odd number of edges; otherwise both are or neither is. */
  lemma InsideAlongSegment(earth: Earth, polygon: seq<LatLng>, p: LatLng, q: LatLng)
    requires AllClean(Chart(p), Chart(q), ChartEdges(polygon)) && p != q
    ensures Inside(earth, polygon, p) != Inside(earth, polygon, q)
       <==> Count(ChartEdges(polygon), CrossedBy(Chart(p), Chart(q))) % 2 == 1
  {
    InsideOnChart(earth, polygon, p);
    InsideOnChart(earth, polygon, q);
    ParityEitherWay(Map(Chart, polygon), Chart(p), Chart(q));
    OddDifference(Count(ChartEdges(polygon), EastFrom(Chart(p))), Count(ChartEdges(polygon), EastFrom(Chart(q))),
                  Count(ChartEdges(polygon), CrossedBy(Chart(p), Chart(q))));
  }

  lemma OddDifference(a: nat, b: nat, c: nat)
    requires (a + b + c) % 2 == 0
    ensures (a % 2 == 1) != (b % 2 == 1) <==> c % 2 == 1
  {
  }

  lemma ParityEitherWay(ring: seq<Point>, p: Point, q: Point)
    requires AllClean(p, q, Edges(ring)) && p != q
    ensures (Count(Edges(ring), EastFrom(p)) + Count(Edges(ring), EastFrom(q))
             + Count(Edges(ring), CrossedBy(p, q))) % 2 == 0
  {
    if p.y < q.y || (p.y == q.y && p.x < q.x) {
      ParityAlong(ring, p, q);
    } else {
      forall i | 0 <= i < |Edges(ring)| ensures Clean(q, p, Edges(ring)[i]) {
        TurnedCross(p, q, Edges(ring)[i]);
      }
      ParityAlong(ring, q, p);
      forall e ensures CrossedBy(q, p)(e) == CrossedBy(p, q)(e) {
        TurnedCross(p, q, e);
      }
      CountAgree(Edges(ring), CrossedBy(q, p), CrossedBy(p, q));
    }
  }

  /** A segment that touches no edge does not leave the inside, nor enter it. */
  lemma InsideWithoutCrossing(earth: Earth, polygon: seq<LatLng>, p: LatLng, q: LatLng)
    requires forall i :: 0 <= i < |polygon| ==> !Meet(Edge(Chart(p), Chart(q)), ChartEdges(polygon)[i])
    ensures Inside(earth, polygon, p) == Inside(earth, polygon, q)
  {
    var edges := ChartEdges(polygon);
    forall i | 0 <= i < |edges| ensures !CrossedBy(Chart(p), Chart(q))(edges[i]) {
      CrossIffMeet(Chart(p), Chart(q), edges[i].a, edges[i].b);
    }
    if p != q {
      InsideAlongSegment(earth, polygon, p, q);
      CountNone(edges, CrossedBy(Chart(p), Chart(q)));
    }
  }

  /** All corners lie strictly west, strictly east, strictly south or strictly north of the point. */
  predicate BeyondCorners(polygon: seq<LatLng>, q: LatLng) {
    || (forall i :: 0 <= i < |polygon| ==> polygon[i].lng < q.lng)
    || (forall i :: 0 <= i < |polygon| ==> polygon[i].lng > q.lng)
    || (forall i :: 0 <= i < |polygon| ==> polygon[i].lat < q.lat)
    || (forall i :: 0 <= i < |polygon| ==> polygon[i].lat > q.lat)
  }

  function ApartAt(y: real): Edge -> bool { (e: Edge) => Apart(y, e) }

  function HigherThan(y: real): Point -> bool { (p: Point) => p.y > y }

  lemma {:induction false} CountAgree(edges: seq<Edge>, f: Edge -> bool, g: Edge -> bool)
    requires forall i :: 0 <= i < |edges| ==> f(edges[i]) == g(edges[i])
    ensures Count(edges, f) == Count(edges, g)
  {
    if edges != [] {
      CountAgree(edges[..|edges| - 1], f, g);
    }
  }

  lemma BeyondIsOutside(earth: Earth, polygon: seq<LatLng>, q: LatLng)
    requires BeyondCorners(polygon, q)
    ensures !Inside(earth, polygon, q)
  {
    InsideOnChart(earth, polygon, q);
    if forall i :: 0 <= i < |polygon| ==> polygon[i].lng > q.lng {
      WestOfAll(polygon, Chart(q));
    } else {
      OtherwiseBeyond(polygon, Chart(q));
    }
  }

  lemma OtherwiseBeyond(polygon: seq<LatLng>, o: Point)
    requires || (forall i :: 0 <= i < |polygon| ==> polygon[i].lng < o.x)
             || (forall i :: 0 <= i < |polygon| ==> polygon[i].lat < o.y)
             || (forall i :: 0 <= i < |polygon| ==> polygon[i].lat > o.y)
    ensures Count(ChartEdges(polygon), EastFrom(o)) == 0
  {
    var edges := ChartEdges(polygon);
    forall i | 0 <= i < |edges| ensures !EastFrom(o)(edges[i]) {
      NoHit(edges[i], o);
    }
    CountNone(edges, EastFrom(o));
  }

  lemma NoHit(e: Edge, o: Point)
    requires (e.a.x < o.x && e.b.x < o.x) || (e.a.y < o.y && e.b.y < o.y) || (e.a.y > o.y && e.b.y > o.y)
    ensures !EastFrom(o)(e)
  {
    if Apart(o.y, e) {
      BetweenEnds(e.a.x, e.b.x, AtLevel(o.y, e));
    }
  }

  lemma WestOfAll(polygon: seq<LatLng>, o: Point)
    requires forall i :: 0 <= i < |polygon| ==> polygon[i].lng > o.x
    ensures Count(ChartEdges(polygon), EastFrom(o)) % 2 == 0
  {
    var edges := ChartEdges(polygon);
    forall i | 0 <= i < |edges| ensures EastFrom(o)(edges[i]) == ApartAt(o.y)(edges[i]) {
      if Apart(o.y, edges[i]) {
        BetweenEnds(edges[i].a.x, edges[i].b.x, AtLevel(o.y, edges[i]));
      }
    }
    CountAgree(edges, EastFrom(o), ApartAt(o.y));
    RingParity(Map(Chart, polygon), HigherThan(o.y), ApartAt(o.y));
  }

  /** A point is inside exactly when a segment in any direction to any point beyond the corners
      crosses an odd number of edges, if it passes through no corner and the point is on no edge. */
  lemma InsideInAnyDirection(earth: Earth, polygon: seq<LatLng>, p: LatLng, q: LatLng)
    requires AllClean(Chart(p), Chart(q), ChartEdges(polygon)) && BeyondCorners(polygon, q)
    ensures Inside(earth, polygon, p) <==> Count(ChartEdges(polygon), CrossedBy(Chart(p), Chart(q))) % 2 == 1
  {
    BeyondIsOutside(earth, polygon, q);
    if p != q {
      InsideAlongSegment(earth, polygon, p, q);
    } else {
      var edges := ChartEdges(polygon);
      forall i | 0 <= i < |edges| ensures !CrossedBy(Chart(p), Chart(q))(edges[i]) {
      }
      CountNone(edges, CrossedBy(Chart(p), Chart(q)));
    }
  }

  // ---- Clean segments exist ------------------------------------------------------------------

  /** The slope of the line from p to c, or any number when it is upright. */
  function Slope(p: Point, c: Point): real { if c.x == p.x then 0.0 else (c.y - p.y) / (c.x - p.x) }

  /** The point on the line from p with that slope, w further east. */
  function OnSlope(p: Point, slope: real, w: real): Point { Point(p.x + w, p.y + slope * w) }

  /** A steeper line from p than the one to c passes c by. */
  lemma SteeperMisses(p: Point, c: Point, slope: real, w: real)
    requires c != p && Slope(p, c) < slope && w > 0.0
    ensures Orientation(p, OnSlope(p, slope, w), c) != 0.0
  {
    var rise := slope * w;
    var dx, dy := c.x - p.x, c.y - p.y;
    assert Orientation(p, OnSlope(p, slope, w), c) == w * dy - rise * dx;
    if dx == 0.0 {
      assert w * dy != 0.0;
    } else {
      var s := Slope(p, c);
      assert dy == s * dx;
      MissBy(w, slope, s, dx);
    }
  }

  lemma MissBy(w: real, slope: real, s: real, dx: real)
    requires w > 0.0 && s < slope && dx != 0.0
    ensures w * (s * dx) - (slope * w) * dx != 0.0
  {
    var gap := PositiveProduct(slope - s, w);
    assert w * (s * dx) - (slope * w) * dx == -(gap * dx);
    if gap * dx == 0.0 {
      Cancel(gap, dx, 0.0);
    }
  }

  lemma SameLine(a: Point, b: Point, p: Point, q: Point)
    requires a != b && Orientation(a, b, p) == 0.0 && Orientation(a, b, q) == 0.0
    ensures Orientation(p, q, a) == 0.0
  {
    var u := LineCoordinate(a, b, p);
    var v := LineCoordinate(a, b, q);
    LineProduct(b.x - a.x, b.y - a.y, u, v);
  }

  lemma LineProduct(rx: real, ry: real, u: real, v: real)
    ensures (v * rx - u * rx) * (-(u * ry)) - (v * ry - u * ry) * (-(u * rx)) == 0.0
  {
    assert (v * rx - u * rx) * (u * ry) == (v - u) * u * (rx * ry);
    assert (v * ry - u * ry) * (u * rx) == (v - u) * u * (rx * ry);
  }

  /** A segment that ends on no point of an edge and whose line misses its ends is clean for it. */
  lemma MissIsClean(p: Point, q: Point, e: Edge)
    requires !On(p, e.a, e.b) && !On(q, e.a, e.b)
    requires Orientation(p, q, e.a) != 0.0 && Orientation(p, q, e.b) != 0.0
    ensures Clean(p, q, e)
  {
    if SegmentsCross(p, q, e.a, e.b) {
      CrossIffMeet(p, q, e.a, e.b);
      var m :| On(m, p, q) && On(m, e.a, e.b);
      OnIsCollinear(m, p, q);
      OnIsCollinear(m, e.a, e.b);
      SidesDiffer(e.a, e.b, p, q, m);
      assert e.a != e.b by {
        DegenerateIs(m, e);
      }
      if Orientation(e.a, e.b, p) == 0.0 && Orientation(e.a, e.b, q) == 0.0 {
        SameLine(e.a, e.b, p, q);
      }
    }
  }

  lemma DegenerateIs(m: Point, e: Edge)
    requires On(m, e.a, e.b)
    ensures e.a == e.b ==> m == e.a
  {
  }

  /** From every point on no edge, a clean segment leads beyond the corners. */
  lemma CleanSegment(polygon: seq<LatLng>, p: LatLng) returns (q: LatLng)
    requires forall i :: 0 <= i < |polygon| ==> !On(Chart(p), ChartEdges(polygon)[i].a, ChartEdges(polygon)[i].b)
    ensures AllClean(Chart(p), Chart(q), ChartEdges(polygon)) && BeyondCorners(polygon, q)
  {
    if polygon == [] {
      return p;
    }
    var o, corners := Chart(p), Map(Chart, polygon);
    var slopes, xs := Map((c: Point) => Slope(o, c), corners), Map((c: Point) => c.x, corners);
    var slope, east := Greatest(slopes) + 1.0, Max(o.x, Greatest(xs)) + 1.0;
    var far := OnSlope(o, slope, east - o.x);
    q := LatLng(far.y, far.x);
    forall i | 0 <= i < |polygon| ensures Slope(o, corners[i]) < slope && corners[i].x < far.x {
      assert slopes[i] in slopes && xs[i] in xs;
    }
    forall i | 0 <= i < |polygon| ensures Clean(o, far, ChartEdges(polygon)[i]) {
      SteepIsClean(o, slope, east - o.x, ChartEdges(polygon)[i]);
    }
  }

  lemma SteepIsClean(p: Point, slope: real, w: real, e: Edge)
    requires !On(p, e.a, e.b) && w > 0.0
    requires Slope(p, e.a) < slope && Slope(p, e.b) < slope
    requires e.a.x < p.x + w && e.b.x < p.x + w
    ensures Clean(p, OnSlope(p, slope, w), e)
  {
    EndsAreOn(e.a, e.b);
    SteeperMisses(p, e.a, slope, w);
    SteeperMisses(p, e.b, slope, w);
    var q := OnSlope(p, slope, w);
    if On(q, e.a, e.b) {
      OnIsCollinear(q, e.a, e.b);
    }
    MissIsClean(p, q, e);
  }

  /** A point on no edge is inside exactly when some clean segment beyond the corners crosses an odd
      number of edges, and exactly when all of them do. */
  lemma InsideByAnyRay(earth: Earth, polygon: seq<LatLng>, p: LatLng)
    requires forall i :: 0 <= i < |polygon| ==> !On(Chart(p), ChartEdges(polygon)[i].a, ChartEdges(polygon)[i].b)
    ensures Inside(earth, polygon, p) <==> exists q :: Ray(polygon, p, q) && OddCrossings(polygon, p, q)
    ensures Inside(earth, polygon, p) <==> forall q :: Ray(polygon, p, q) ==> OddCrossings(polygon, p, q)
  {
    var far := CleanSegment(polygon, p);
    assert Ray(polygon, p, far);
    forall q | Ray(polygon, p, q) ensures Inside(earth, polygon, p) <==> OddCrossings(polygon, p, q) {
      InsideInAnyDirection(earth, polygon, p, q);
    }
  }

  /** A clean segment from p to a point beyond the corners. */
  ghost predicate Ray(polygon: seq<LatLng>, p: LatLng, q: LatLng) {
    AllClean(Chart(p), Chart(q), ChartEdges(polygon)) && BeyondCorners(polygon, q)
  }

  predicate OddCrossings(polygon: seq<LatLng>, p: LatLng, q: LatLng) {
    Count(ChartEdges(polygon), CrossedBy(Chart(p), Chart(q))) % 2 == 1
  }
}

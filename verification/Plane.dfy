/**
 Segments of the plane: the orientation test, the crossing test built on it, and what
 that test decides. Coordinates are exact reals.
 */
module Plane {
  import opened Reals

  datatype Point = Point(x: real, y: real)

  datatype Edge = Edge(a: Point, b: Point)

  /** The point a fraction t of the way from a to b. */
  function Along(a: Point, b: Point, t: real): Point {
    Point(a.x + t * (b.x - a.x), a.y + t * (b.y - a.y))
  }

  /** p is one of the points of the closed segment ab; a degenerate segment is one point. */
  ghost predicate On(p: Point, a: Point, b: Point) {
    exists t: real :: 0.0 <= t <= 1.0 && p == Along(a, b, t)
  }

  /** The closed segments share a point. */
  ghost predicate Meet(e: Edge, f: Edge) {
    exists p: Point :: On(p, e.a, e.b) && On(p, f.a, f.b)
  }

  /** Twice the signed area of the triangle abc. */
  function Orientation(a: Point, b: Point, c: Point): real {
    (b.x - a.x) * (c.y - a.y) - (b.y - a.y) * (c.x - a.x)
  }

  /** q lies in the bounding box of p and r. */
  predicate InBox(p: Point, q: Point, r: Point) {
    && Min(p.x, r.x) <= q.x <= Max(p.x, r.x)
    && Min(p.y, r.y) <= q.y <= Max(p.y, r.y)
  }

  predicate SegmentsCross(a: Point, b: Point, c: Point, d: Point) {
    var o1, o2 := Orientation(a, b, c), Orientation(a, b, d);
    var o3, o4 := Orientation(c, d, a), Orientation(c, d, b);
    || (&& (o1 > 0.0) != (o2 > 0.0)
        && (o3 > 0.0) != (o4 > 0.0)
        && o1 != 0.0 && o2 != 0.0 && o3 != 0.0 && o4 != 0.0)
    || (o1 == 0.0 && InBox(a, c, b))
    || (o2 == 0.0 && InBox(a, d, b))
    || (o3 == 0.0 && InBox(c, a, d))
    || (o4 == 0.0 && InBox(c, b, d))
  }

  // ---- Orientation along a segment ---------------------------------------------------

  /** Orientation is affine in its last point. */
  lemma OrientationAlong(a: Point, b: Point, c: Point, d: Point, t: real)
    ensures Orientation(a, b, Along(c, d, t))
         == Orientation(a, b, c) + t * (Orientation(a, b, d) - Orientation(a, b, c))
  {
    var rx, ry := b.x - a.x, b.y - a.y;
    var cx, cy := c.x - a.x, c.y - a.y;
    var qx, qy := d.x - c.x, d.y - c.y;
    AffineCross(rx, ry, cx, cy, qx, qy, t);
    assert d.x - a.x == cx + qx && d.y - a.y == cy + qy;
  }

  lemma AffineCross(rx: real, ry: real, cx: real, cy: real, qx: real, qy: real, t: real)
    ensures rx * (cy + t * qy) - ry * (cx + t * qx)
         == (rx * cy - ry * cx) + t * ((rx * (cy + qy) - ry * (cx + qx)) - (rx * cy - ry * cx))
  {
  }

  /** Between a and b the value stays between its ends. */
  lemma BetweenEnds(u: real, v: real, t: real)
    requires 0.0 <= t <= 1.0
    ensures Min(u, v) <= u + t * (v - u) <= Max(u, v)
  {
    if u <= v {
      var p := ShareOf(t, v - u);
    } else {
      var p := ShareOf(t, u - v);
      assert t * (v - u) == -p;
    }
  }

  lemma FromOtherEnd(a: real, b: real, t: real)
    ensures a + t * (b - a) == b + (1.0 - t) * (a - b)
  {
    assert (1.0 - t) * (a - b) == (a - b) - t * (a - b);
    assert t * (a - b) == -(t * (b - a));
  }

  lemma OrientationOfEnds(a: Point, b: Point)
    ensures Orientation(a, b, a) == 0.0 && Orientation(a, b, b) == 0.0
  {
  }

  lemma OnIsCollinear(p: Point, a: Point, b: Point)
    requires On(p, a, b)
    ensures Orientation(a, b, p) == 0.0 && InBox(a, p, b)
  {
    var t :| 0.0 <= t <= 1.0 && p == Along(a, b, t);
    OrientationAlong(a, b, a, b, t);
    OrientationOfEnds(a, b);
    BetweenEnds(a.x, b.x, t);
    BetweenEnds(a.y, b.y, t);
  }

  lemma CollinearIsOn(p: Point, a: Point, b: Point)
    requires Orientation(a, b, p) == 0.0 && InBox(a, p, b)
    ensures On(p, a, b)
  {
    if a.x != b.x {
      var t := Share(a.x, b.x, p.x);
      Proportional(b.x - a.x, b.y - a.y, p.x - a.x, p.y - a.y, t);
      assert p == Along(a, b, t);
    } else if a.y != b.y {
      var t := Share(a.y, b.y, p.y);
      assert t * (b.x - a.x) == 0.0;
      assert p == Along(a, b, t);
    } else {
      assert p == Along(a, b, 0.0);
    }
  }

  /** The fraction of the way from u to v at which w lies. */
  lemma Share(u: real, v: real, w: real) returns (t: real)
    requires u != v && Min(u, v) <= w <= Max(u, v)
    ensures 0.0 <= t <= 1.0 && w == u + t * (v - u)
  {
    t := (w - u) / (v - u);
  }

  lemma Proportional(rx: real, ry: real, px: real, py: real, t: real)
    requires rx != 0.0 && px == t * rx && rx * py - ry * px == 0.0
    ensures py == t * ry
  {
    assert rx * py == rx * (t * ry);
    Cancel(rx, py, t * ry);
  }

  // ---- The crossing test decides whether the segments share a point ------------------

  lemma EndsAreOn(a: Point, b: Point)
    ensures On(a, a, b) && On(b, a, b)
  {
    assert a == Along(a, b, 0.0);
    assert b == Along(a, b, 1.0);
  }

  /** Cramer's rule for s*r - t*q == w. */
  lemma Cramer(rx: real, ry: real, qx: real, qy: real, wx: real, wy: real, s: real, t: real)
    requires rx * qy - ry * qx != 0.0
    requires s * (rx * qy - ry * qx) == wx * qy - wy * qx
    requires t * (rx * qy - ry * qx) == wx * ry - wy * rx
    ensures s * rx - t * qx == wx && s * ry - t * qy == wy
  {
    var det := rx * qy - ry * qx;
    assert (wx * qy - wy * qx) * rx - (wx * ry - wy * rx) * qx == det * wx;
    assert det * (s * rx - t * qx) == (s * det) * rx - (t * det) * qx;
    Cancel(det, s * rx - t * qx, wx);
    assert (wx * qy - wy * qx) * ry - (wx * ry - wy * rx) * qy == det * wy;
    assert det * (s * ry - t * qy) == (s * det) * ry - (t * det) * qy;
    Cancel(det, s * ry - t * qy, wy);
  }

  lemma ZeroBetween(u: real, v: real) returns (t: real)
    requires u != 0.0 && v != 0.0 && (u > 0.0) != (v > 0.0)
    ensures 0.0 <= t <= 1.0 && t * (u - v) == u
  {
    t := u / (u - v);
  }

  lemma ProperCrossMeets(a: Point, b: Point, c: Point, d: Point)
    requires Orientation(a, b, c) != 0.0 && Orientation(a, b, d) != 0.0
    requires Orientation(c, d, a) != 0.0 && Orientation(c, d, b) != 0.0
    requires (Orientation(a, b, c) > 0.0) != (Orientation(a, b, d) > 0.0)
    requires (Orientation(c, d, a) > 0.0) != (Orientation(c, d, b) > 0.0)
    ensures Meet(Edge(a, b), Edge(c, d))
  {
    var o1, o2, o3, o4 := Orientation(a, b, c), Orientation(a, b, d), Orientation(c, d, a), Orientation(c, d, b);
    var s := ZeroBetween(o3, o4);
    var t := ZeroBetween(o1, o2);
    var det := Determinant(a, b, c, d);
    OrientationDifferences(a, b, c, d);
    Negated(t, o1 - o2, det);
    LinesMeet(a, b, c, d, s, t);
    assert On(Along(a, b, s), a, b) && On(Along(a, b, s), c, d);
  }

  function Determinant(a: Point, b: Point, c: Point, d: Point): real {
    (b.x - a.x) * (d.y - c.y) - (b.y - a.y) * (d.x - c.x)
  }

  lemma Negated(t: real, u: real, v: real)
    requires v == -u
    ensures t * v == -(t * u)
  {
  }

  lemma OrientationDifferences(a: Point, b: Point, c: Point, d: Point)
    ensures Orientation(a, b, c) - Orientation(a, b, d) == -Determinant(a, b, c, d)
    ensures Orientation(c, d, a) - Orientation(c, d, b) == Determinant(a, b, c, d)
    ensures Orientation(a, b, c) == -((c.x - a.x) * (b.y - a.y) - (c.y - a.y) * (b.x - a.x))
    ensures Orientation(c, d, a) == (c.x - a.x) * (d.y - c.y) - (c.y - a.y) * (d.x - c.x)
  {
  }

  lemma LinesMeet(a: Point, b: Point, c: Point, d: Point, s: real, t: real)
    requires Determinant(a, b, c, d) != 0.0
    requires s * Determinant(a, b, c, d) == (c.x - a.x) * (d.y - c.y) - (c.y - a.y) * (d.x - c.x)
    requires t * Determinant(a, b, c, d) == (c.x - a.x) * (b.y - a.y) - (c.y - a.y) * (b.x - a.x)
    ensures Along(a, b, s) == Along(c, d, t)
  {
    var rx, ry, qx, qy := b.x - a.x, b.y - a.y, d.x - c.x, d.y - c.y;
    Cramer(rx, ry, qx, qy, c.x - a.x, c.y - a.y, s, t);
    AlongBy(a, b, s, rx, ry, s * rx, s * ry);
    AlongBy(c, d, t, qx, qy, t * qx, t * qy);
  }

  lemma AlongBy(a: Point, b: Point, t: real, rx: real, ry: real, dx: real, dy: real)
    requires rx == b.x - a.x && ry == b.y - a.y && dx == t * rx && dy == t * ry
    ensures Along(a, b, t) == Point(a.x + dx, a.y + dy)
  {
  }

  lemma CrossingMeets(a: Point, b: Point, c: Point, d: Point)
    requires SegmentsCross(a, b, c, d)
    ensures Meet(Edge(a, b), Edge(c, d))
  {
    EndsAreOn(a, b);
    EndsAreOn(c, d);
    if Orientation(a, b, c) == 0.0 && InBox(a, c, b) {
      CollinearIsOn(c, a, b);
    } else if Orientation(a, b, d) == 0.0 && InBox(a, d, b) {
      CollinearIsOn(d, a, b);
    } else if Orientation(c, d, a) == 0.0 && InBox(c, a, d) {
      CollinearIsOn(a, c, d);
    } else if Orientation(c, d, b) == 0.0 && InBox(c, b, d) {
      CollinearIsOn(b, c, d);
    } else {
      ProperCrossMeets(a, b, c, d);
    }
  }

  /** A point of cd on the line ab puts c and d on opposite sides, or one of them on the line. */
  lemma SidesDiffer(a: Point, b: Point, c: Point, d: Point, p: Point)
    requires On(p, c, d) && Orientation(a, b, p) == 0.0
    ensures (Orientation(a, b, c) > 0.0) != (Orientation(a, b, d) > 0.0)
         || Orientation(a, b, c) == 0.0 || Orientation(a, b, d) == 0.0
    ensures Orientation(a, b, c) == 0.0 && Orientation(a, b, d) != 0.0 ==> p == c
    ensures Orientation(a, b, d) == 0.0 && Orientation(a, b, c) != 0.0 ==> p == d
  {
    var t :| 0.0 <= t <= 1.0 && p == Along(c, d, t);
    OrientationAlong(a, b, c, d, t);
    ZeroAlong(Orientation(a, b, c), Orientation(a, b, d), t);
    assert Along(c, d, 0.0) == c && Along(c, d, 1.0) == d;
  }

  /** Where an affine value vanishes, its ends have different signs, or one of them vanishes too. */
  lemma ZeroAlong(u: real, v: real, t: real)
    requires 0.0 <= t <= 1.0 && u + t * (v - u) == 0.0
    ensures (u > 0.0) != (v > 0.0) || u == 0.0 || v == 0.0
    ensures u == 0.0 && v != 0.0 ==> t == 0.0
    ensures v == 0.0 && u != 0.0 ==> t == 1.0
  {
    assert (1.0 - t) * u + t * v == 0.0;
    if u == 0.0 && v != 0.0 {
      Cancel(v, t, 0.0);
    } else if v == 0.0 && u != 0.0 {
      Cancel(u, 1.0 - t, 0.0);
    } else if u > 0.0 && v > 0.0 {
      SameSign(u, v, t);
    } else if u < 0.0 && v < 0.0 {
      SameSign(-u, -v, t);
    }
  }

  lemma SameSign(u: real, v: real, t: real)
    requires u > 0.0 && v > 0.0 && 0.0 <= t <= 1.0
    ensures (1.0 - t) * u + t * v > 0.0
  {
    if t == 1.0 {
    } else {
      assert (1.0 - t) * u > 0.0;
      assert t * v >= 0.0;
    }
  }

  /** A point of a line through distinct points a and b has a coordinate along it. */
  lemma LineCoordinate(a: Point, b: Point, p: Point) returns (u: real)
    requires a != b && Orientation(a, b, p) == 0.0
    ensures p == Along(a, b, u)
  {
    if a.x != b.x {
      u := (p.x - a.x) / (b.x - a.x);
      Proportional(b.x - a.x, b.y - a.y, p.x - a.x, p.y - a.y, u);
    } else {
      u := (p.y - a.y) / (b.y - a.y);
      assert (b.y - a.y) * (p.x - a.x) == 0.0;
      Cancel(b.y - a.y, p.x - a.x, 0.0);
      assert u * (b.x - a.x) == 0.0;
    }
  }

  /** Equal points of a proper line have equal coordinates. */
  lemma CoordinateUnique(a: Point, b: Point, u: real, v: real)
    requires a != b && Along(a, b, u) == Along(a, b, v)
    ensures u == v
  {
    if a.x != b.x {
      Cancel(b.x - a.x, u, v);
    } else {
      Cancel(b.y - a.y, u, v);
    }
  }

  lemma AlongAlong(a: Point, b: Point, u: real, v: real, t: real)
    ensures Along(Along(a, b, u), Along(a, b, v), t) == Along(a, b, u + t * (v - u))
  {
    AlongAlong1(a.x, b.x - a.x, u, v, t);
    AlongAlong1(a.y, b.y - a.y, u, v, t);
  }

  lemma AlongAlong1(o: real, r: real, u: real, v: real, t: real)
    ensures o + u * r + t * (o + v * r - (o + u * r)) == o + (u + t * (v - u)) * r
  {
    assert t * (v * r - u * r) == (t * (v - u)) * r;
  }

  /** All four points on one line: if the segments share a point, an end of one is on the other. */
  lemma CollinearOverlap(a: Point, b: Point, c: Point, d: Point, p: Point)
    requires a != b && Orientation(a, b, c) == 0.0 && Orientation(a, b, d) == 0.0
    requires On(p, a, b) && On(p, c, d)
    ensures On(c, a, b) || On(d, a, b) || On(a, c, d)
  {
    var s :| 0.0 <= s <= 1.0 && p == Along(a, b, s);
    var t :| 0.0 <= t <= 1.0 && p == Along(c, d, t);
    var u := LineCoordinate(a, b, c);
    var v := LineCoordinate(a, b, d);
    AlongAlong(a, b, u, v, t);
    CoordinateUnique(a, b, s, u + t * (v - u));
    BetweenEnds(u, v, t);
    if !(0.0 <= u <= 1.0) && !(0.0 <= v <= 1.0) {
      var z := Share(u, v, 0.0);
      AlongAlong(a, b, u, v, z);
      assert a == Along(a, b, 0.0);
      assert a == Along(c, d, z);
    }
  }

  lemma MeetingCrosses(a: Point, b: Point, c: Point, d: Point)
    requires Meet(Edge(a, b), Edge(c, d))
    ensures SegmentsCross(a, b, c, d)
  {
    var p :| On(p, a, b) && On(p, c, d);
    OnIsCollinear(p, a, b);
    OnIsCollinear(p, c, d);
    SidesDiffer(a, b, c, d, p);
    SidesDiffer(c, d, a, b, p);
    if a == b {
      assert p == a;
    } else if Orientation(a, b, c) == 0.0 && Orientation(a, b, d) == 0.0 {
      CollinearOverlap(a, b, c, d, p);
      if On(c, a, b) {
        OnIsCollinear(c, a, b);
      } else if On(d, a, b) {
        OnIsCollinear(d, a, b);
      } else {
        OnIsCollinear(a, c, d);
      }
    }
  }

  /** The test of the four orientations is true exactly when the closed segments share a point. */
  lemma CrossIffMeet(a: Point, b: Point, c: Point, d: Point)
    ensures SegmentsCross(a, b, c, d) <==> Meet(Edge(a, b), Edge(c, d))
  {
    if SegmentsCross(a, b, c, d) {
      CrossingMeets(a, b, c, d);
    }
    if Meet(Edge(a, b), Edge(c, d)) {
      MeetingCrosses(a, b, c, d);
    }
  }
}

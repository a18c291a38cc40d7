/** A stored outline is a simple closed curve: no edge folds back on the one before it. */
module OutlineCurve {
  // is_simple does not look at neighbouring edges. With four corners or more a fold makes edges touch that
  // are no neighbours; with three it leaves no area.

  import opened Reals
  import opened Folds
  import opened Plane
  import opened Rings
  import opened Geofence
  import opened Outlines

  /** The edges share the point where the first ends, and no other. */
  ghost predicate OnlyJoined(e: Edge, f: Edge) {
    forall p :: On(p, e.a, e.b) && On(p, f.a, f.b) <==> p == e.b
  }

  /** Every edge shares exactly its end with the next one, and nothing with edges further on. */
  ghost predicate SimpleCurve(polygon: seq<LatLng>) {
    && Simple(polygon)
    && forall i :: 0 <= i < |polygon| ==> OnlyJoined(ChartEdges(polygon)[i], ChartEdges(polygon)[Next(i, |polygon|)])
  }

  // ---- Folds ---------------------------------------------------------------------------------

  lemma TurnedOrientation(a: Point, b: Point, c: Point)
    ensures Orientation(b, a, c) == -Orientation(a, b, c)
    ensures Orientation(b, c, a) == Orientation(a, b, c)
  {
  }

  lemma SharedIsCollinear(a: Point, b: Point, c: Point, p: Point)
    requires On(p, a, b) && On(p, b, c) && p != b
    ensures Orientation(a, b, c) == 0.0
  {
    var t :| 0.0 <= t <= 1.0 && p == Along(b, c, t);
    OnIsCollinear(p, a, b);
    OrientationAlong(a, b, b, c, t);
    OrientationOfEnds(a, b);
    assert t * Orientation(a, b, c) == 0.0;
    assert b == Along(b, c, 0.0);
    Cancel(t, Orientation(a, b, c), 0.0);
  }

  /** If ab and bc share another point than b, then one of them lies on the other. */
  lemma FoldOverlaps(a: Point, b: Point, c: Point, p: Point)
    requires a != b && On(p, a, b) && On(p, b, c) && p != b
    ensures On(c, a, b) || On(a, b, c)
  {
    SharedIsCollinear(a, b, c, p);
    TurnedOrientation(a, b, c);
    var u := LineCoordinate(b, a, c);
    FlipOn(p, a, b);
    var s :| 0.0 <= s <= 1.0 && p == Along(b, a, s);
    var t :| 0.0 <= t <= 1.0 && p == Along(b, c, t);
    AlongFrom(b, a, u, t);
    CoordinateUnique(b, a, s, t * u);
    assert s != 0.0;
    PositiveFactor(t, u, s);
    if u <= 1.0 {
      FlipOn(c, b, a);
    } else {
      PastEnd(b, a, u);
    }
  }

  lemma PastEnd(a: Point, b: Point, u: real)
    requires u > 1.0
    ensures On(b, a, Along(a, b, u))
  {
    var z := 1.0 / u;
    assert z * u == 1.0;
    AlongFrom(a, b, u, z);
    assert b == Along(a, b, 1.0);
  }

  lemma AlongFrom(b: Point, a: Point, u: real, t: real)
    ensures Along(b, Along(b, a, u), t) == Along(b, a, t * u)
  {
    assert b == Along(b, a, 0.0);
    AlongAlong(b, a, 0.0, u, t);
  }

  lemma PositiveFactor(t: real, u: real, s: real)
    requires t * u == s && t >= 0.0 && s > 0.0
    ensures u > 0.0
  {
    if u <= 0.0 {
      var product := NonNegativeProduct(t, -u);
    }
  }

  // ---- Four corners or more ------------------------------------------------------------------

  /** The corner or edge before i. */
  function Previous(i: nat, n: nat): (p: nat)
    requires i < n
    ensures p < n && Next(p, n) == i
  {
    if i == 0 then n - 1 else i - 1
  }

  lemma EndsApart(polygon: seq<LatLng>, i: nat)
    requires Simple(polygon) && |polygon| >= 4 && i < |polygon|
    ensures var e, f := ChartEdges(polygon)[i], ChartEdges(polygon)[Next(i, |polygon|)];
            !On(f.b, e.a, e.b) && !On(e.a, f.a, f.b)
  {
    var n, edges := |polygon|, ChartEdges(polygon);
    var next, last := Next(i, n), Previous(i, n);
    var after := Next(next, n);
    assert !Neighbours(i, after, n) && !Meet(edges[i], edges[after]);
    assert !Neighbours(last, next, n) && !Meet(edges[last], edges[next]);
    EndsAreOn(edges[after].a, edges[after].b);
    EndsAreOn(edges[last].a, edges[last].b);
  }

  lemma NoFold(polygon: seq<LatLng>, i: nat, p: Point)
    requires Simple(polygon) && |polygon| >= 4 && i < |polygon|
    requires var e, f := ChartEdges(polygon)[i], ChartEdges(polygon)[Next(i, |polygon|)];
             On(p, e.a, e.b) && On(p, f.a, f.b)
    ensures p == ChartEdges(polygon)[i].b
  {
    var e, f := ChartEdges(polygon)[i], ChartEdges(polygon)[Next(i, |polygon|)];
    CornersDiffer(polygon, i);
    EndsApart(polygon, i);
    if p != e.b {
      FoldOverlaps(e.a, e.b, f.b, p);
    }
  }

  lemma CornersDiffer(polygon: seq<LatLng>, i: nat)
    requires Simple(polygon) && i < |polygon|
    ensures ChartEdges(polygon)[i].a != ChartEdges(polygon)[i].b
  {
    var next := Next(i, |polygon|);
    assert polygon[i] != polygon[next];
  }

  lemma JoinedWhere(e: Edge, f: Edge)
    requires e.b == f.a && forall p :: On(p, e.a, e.b) && On(p, f.a, f.b) ==> p == e.b
    ensures OnlyJoined(e, f)
  {
    EndsAreOn(e.a, e.b);
    EndsAreOn(f.a, f.b);
  }

  lemma LargeIsCurve(polygon: seq<LatLng>)
    requires Simple(polygon) && |polygon| >= 4
    ensures SimpleCurve(polygon)
  {
    var edges := ChartEdges(polygon);
    forall i | 0 <= i < |polygon| ensures OnlyJoined(edges[i], edges[Next(i, |polygon|)]) {
      var e, f := edges[i], edges[Next(i, |polygon|)];
      forall p | On(p, e.a, e.b) && On(p, f.a, f.b) ensures p == e.b {
        NoFold(polygon, i, p);
      }
      JoinedWhere(e, f);
    }
  }

  // ---- Triangles -----------------------------------------------------------------------------

  /** Any corner of a triangle may be the first. */
  lemma TriangleArea(ring: seq<Point>, i: nat)
    requires |ring| == 3 && i < 3
    ensures TwiceArea(ring) == Orientation(ring[i], ring[Next(i, 3)], ring[Next(Next(i, 3), 3)])
  {
    ShoelaceIsFan(ring);
    assert TwiceFan(ring, 2) == 0.0;
    TurnedOrientation(ring[0], ring[1], ring[2]);
    TurnedOrientation(ring[1], ring[2], ring[0]);
  }

  lemma TriangleIsCurve(polygon: seq<LatLng>)
    requires Simple(polygon) && |polygon| == 3 && TwiceArea(Map(Chart, polygon)) != 0.0
    ensures SimpleCurve(polygon)
  {
    var edges := ChartEdges(polygon);
    forall i | 0 <= i < 3 ensures OnlyJoined(edges[i], edges[Next(i, 3)]) {
      var e, f := edges[i], edges[Next(i, 3)];
      TriangleArea(Map(Chart, polygon), i);
      forall p | On(p, e.a, e.b) && On(p, f.a, f.b) ensures p == e.b {
        if p != e.b {
          SharedIsCollinear(e.a, e.b, f.b, p);
        }
      }
      JoinedWhere(e, f);
    }
  }

  /** Of three points on a line one lies between the two others. */
  lemma OneBetween(a: Point, b: Point, c: Point)
    requires a != b && Orientation(a, b, c) == 0.0
    ensures On(c, a, b) || On(b, a, c) || On(a, b, c)
  {
    var u := LineCoordinate(a, b, c);
    if u > 1.0 {
      PastEnd(a, b, u);
    } else if u < 0.0 {
      BeforeStart(a, b, u);
    }
  }

  lemma BeforeStart(a: Point, b: Point, u: real)
    requires u < 0.0
    ensures On(a, b, Along(a, b, u))
  {
    var z := Share(1.0, u, 0.0);
    AlongAlong(a, b, 1.0, u, z);
    assert a == Along(a, b, 0.0) && b == Along(a, b, 1.0);
  }

  lemma FlatTriangleFolds(polygon: seq<LatLng>)
    requires |polygon| == 3 && SimpleCurve(polygon)
    ensures TwiceArea(Map(Chart, polygon)) != 0.0
  {
    var edges := ChartEdges(polygon);
    var a, b, c := Chart(polygon[0]), Chart(polygon[1]), Chart(polygon[2]);
    assert edges[0] == Edge(a, b) && edges[1] == Edge(b, c) && edges[2] == Edge(c, a);
    assert polygon[0] != polygon[1] && polygon[1] != polygon[2] && polygon[0] != polygon[2];
    TriangleArea(Map(Chart, polygon), 0);
    if Orientation(a, b, c) == 0.0 {
      OneBetween(a, b, c);
      EndsAreOn(a, b);
      EndsAreOn(b, c);
      EndsAreOn(c, a);
      assert OnlyJoined(edges[0], edges[1]) && OnlyJoined(edges[1], edges[2]);
      if On(b, a, c) {
        FlipOn(b, a, c);
      }
      assert false;
    }
  }

  // ---- Stored outlines -----------------------------------------------------------------------

  /** Simplicity is that of the curve, but for a triangle without area. */
  lemma SimpleCurveIff(polygon: seq<LatLng>)
    ensures SimpleCurve(polygon) <==> Simple(polygon) && (|polygon| == 3 ==> TwiceArea(Map(Chart, polygon)) != 0.0)
  {
    if SimpleCurve(polygon) && |polygon| == 3 {
      FlatTriangleFolds(polygon);
    } else if Simple(polygon) && |polygon| >= 4 {
      LargeIsCurve(polygon);
    } else if Simple(polygon) && TwiceArea(Map(Chart, polygon)) != 0.0 {
      TriangleIsCurve(polygon);
    }
  }

  lemma NoAreaRefused(earth: Earth, polygon: seq<LatLng>)
    requires polygon != [] && TwiceArea(Map(Chart, polygon)) == 0.0
    ensures AreaSquareMetres(earth, polygon) == 0.0
  {
    var kx, ky := earth.East(CornerAverage(polygon).lat), earth.North();
    AreaOnChart(earth, polygon, kx, ky);
    assert Stretched(kx, ky, 0.0) == 0.0;
  }

  /** Every stored outline is a simple closed curve. */
  lemma StoredIsCurve(earth: Earth, value: seq<LatLng>)
    requires NormalisePolygon(earth, value).Ok?
    ensures SimpleCurve(NormalisePolygon(earth, value).value)
  {
    var ring := NormalisePolygon(earth, value).value;
    ValidIsOpen(earth, ring);
    if TwiceArea(Map(Chart, ring)) == 0.0 {
      NoAreaRefused(earth, ring);
    }
    SimpleCurveIff(ring);
  }
}

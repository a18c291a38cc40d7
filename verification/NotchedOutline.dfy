/** A stored outline for which interior_point returns a point that is not inside. */
module NotchedOutline {
  // Its corner average is outside, and its western-most corner lies exactly on the scan line.

  import opened Wrappers
  import opened Folds
  import opened Plane
  import opened Rings
  import opened Geofence
  import opened Outlines
  import Rounding
  import Sorting

  const NOTCHED: seq<LatLng> :=
    [LatLng(0.0, -0.001), LatLng(0.0006, -0.001), LatLng(0.0006, 0.001), LatLng(-0.0016, 0.001), LatLng(0.0004, 0.0)]

  lemma SumFive<T>(s: seq<T>, f: T -> real)
    requires |s| == 5
    ensures Sum(s, f) == f(s[0]) + f(s[1]) + f(s[2]) + f(s[3]) + f(s[4])
  {
    assert s[..4][..3] == s[..3] && s[..3][..2] == s[..2] && s[..2][..1] == s[..1] && s[..1][..0] == [];
    assert Sum(s[..1], f) == f(s[0]);
    assert Sum(s[..2], f) == Sum(s[..1], f) + f(s[1]);
    assert Sum(s[..3], f) == Sum(s[..2], f) + f(s[2]);
    assert Sum(s[..4], f) == Sum(s[..3], f) + f(s[3]);
  }

  lemma CrossingsFive(s: seq<Edge>)
    requires |s| == 5
    requires Straddles(s[0]) && !Straddles(s[1]) && Straddles(s[2]) && Straddles(s[3]) && Straddles(s[4])
    ensures Crossings(s) == [CrossingX(s[0]), CrossingX(s[2]), CrossingX(s[3]), CrossingX(s[4])]
  {
    assert s[..4][..3] == s[..3] && s[..3][..2] == s[..2] && s[..2][..1] == s[..1] && s[..1][..0] == [];
    assert Crossings(s[..1]) == [CrossingX(s[0])];
    assert Crossings(s[..2]) == Crossings(s[..1]);
    assert Crossings(s[..3]) == Crossings(s[..2]) + [CrossingX(s[2])];
    assert Crossings(s[..4]) == Crossings(s[..3]) + [CrossingX(s[3])];
  }

  function Corner(i: nat): Point
    requires i < 5
  {
    Chart(NOTCHED[i])
  }

  lemma NotchedApart(i: nat, j: nat)
    requires i < j < 5 && !Neighbours(i, j, 5)
    ensures !SegmentsCross(Corner(i), Corner(Next(i, 5)), Corner(j), Corner(Next(j, 5)))
  {
    if i == 0 {
      if j == 2 {
        assert !SegmentsCross(Corner(0), Corner(1), Corner(2), Corner(3));
      } else {
        assert !SegmentsCross(Corner(0), Corner(1), Corner(3), Corner(4));
      }
    } else if i == 1 {
      if j == 3 {
        assert !SegmentsCross(Corner(1), Corner(2), Corner(3), Corner(4));
      } else {
        assert !SegmentsCross(Corner(1), Corner(2), Corner(4), Corner(0));
      }
    } else {
      assert !SegmentsCross(Corner(2), Corner(3), Corner(4), Corner(0));
    }
  }

  lemma NotchedIsSimple()
    ensures Simple(NOTCHED)
  {
    var edges := ChartEdges(NOTCHED);
    forall i, j | 0 <= i < 5 && 0 <= j < 5 && i != j && !Neighbours(i, j, 5)
      ensures !Meet(edges[i], edges[j])
    {
      var low, high := if i < j then i else j, if i < j then j else i;
      NotchedApart(low, high);
      CrossIffMeet(Corner(low), Corner(Next(low, 5)), Corner(high), Corner(Next(high, 5)));
      MeetSymmetric(edges[i], edges[j]);
    }
  }

  lemma NotchedAverage()
    ensures CornerAverage(NOTCHED) == LatLng(0.0, 0.0)
  {
    SumFive(NOTCHED, LatOf);
    SumFive(NOTCHED, LngOf);
  }

  /** The crossing of an edge of a scaled ring, from the fraction t at which it meets the line. */
  lemma CrossingAt(x1: real, y1: real, x2: real, y2: real, kx: real, ky: real, t: real)
    requires ky > 0.0 && (y1 > 0.0) != (y2 > 0.0) && t * (y2 - y1) == -y1
    ensures var e := Edge(Point(x1 * kx, y1 * ky), Point(x2 * kx, y2 * ky));
            Straddles(e) && CrossingX(e) == (x1 + t * (x2 - x1)) * kx
  {
    Sign(y1, ky);
    Sign(y2, ky);
    var e := Edge(Point(x1 * kx, y1 * ky), Point(x2 * kx, y2 * ky));
    assert t * (y2 * ky - y1 * ky) == (t * (y2 - y1)) * ky;
    Quotient(0.0 - y1 * ky, x2 * kx - x1 * kx, y2 * ky - y1 * ky, t);
    assert t * (x2 * kx - x1 * kx) == (t * (x2 - x1)) * kx;
  }

  lemma Sign(y: real, k: real)
    requires k > 0.0
    ensures y * k > 0.0 <==> y > 0.0
  {
    if y <= 0.0 {
      assert (-y) * k >= 0.0;
    }
  }

  /** The crossings of the scan line, on any pair of positive scales. */
  lemma ScaledCrossings(edges: seq<Edge>, kx: real, ky: real)
    requires kx > 0.0 && ky > 0.0 && |edges| == 5
    requires edges[0] == Edge(Point(-0.001 * kx, 0.0 * ky), Point(-0.001 * kx, 0.0006 * ky))
    requires edges[1] == Edge(Point(-0.001 * kx, 0.0006 * ky), Point(0.001 * kx, 0.0006 * ky))
    requires edges[2] == Edge(Point(0.001 * kx, 0.0006 * ky), Point(0.001 * kx, -0.0016 * ky))
    requires edges[3] == Edge(Point(0.001 * kx, -0.0016 * ky), Point(0.0 * kx, 0.0004 * ky))
    requires edges[4] == Edge(Point(0.0 * kx, 0.0004 * ky), Point(-0.001 * kx, 0.0 * ky))
    ensures Crossings(edges) == [-0.001 * kx, 0.001 * kx, 0.0002 * kx, -0.001 * kx]
  {
    CrossingAt(-0.001, 0.0, -0.001, 0.0006, kx, ky, 0.0);
    CrossingAt(0.001, 0.0006, 0.001, -0.0016, kx, ky, 3.0 / 11.0);
    CrossingAt(0.001, -0.0016, 0.0, 0.0004, kx, ky, 0.8);
    CrossingAt(0.0, 0.0004, -0.001, 0.0, kx, ky, 1.0);
    Sign(0.0006, ky);
    CrossingsFive(edges);
  }

  lemma NotchedCrossings(earth: Earth, kx: real)
    requires kx == earth.East(0.0)
    ensures kx > 0.0
    ensures Crossings(Edges(ProjectRing(earth, LatLng(0.0, 0.0), NOTCHED)))
         == [-0.001 * kx, 0.001 * kx, 0.0002 * kx, -0.001 * kx]
  {
    ScalesPositive(earth, 0.0);
    ScaledCrossings(Edges(ProjectRing(earth, LatLng(0.0, 0.0), NOTCHED)), kx, earth.North());
  }

  /** Two edges share the western-most crossing, and the two others lie east of the average. */
  lemma CrossingsDecide(found: seq<real>, crossings: seq<real>, kx: real)
    requires kx > 0.0 && found == [-0.001 * kx, 0.001 * kx, 0.0002 * kx, -0.001 * kx]
    requires crossings == Sorting.SortReals(found)
    ensures Count(found, Beyond(0.0)) == 2 && !OddLeftmost(crossings)
  {
    assert found[..3][..2] == found[..2] && found[..2][..1] == found[..1] && found[..1][..0] == [];
    assert Count(found[..1], Beyond(0.0)) == 0;
    assert Count(found[..2], Beyond(0.0)) == 1;
    assert Count(found[..3], Beyond(0.0)) == 2;
    assert crossings[0] in multiset(found) && found[0] in multiset(crossings);
    assert crossings[0] == -0.001 * kx;
    assert multiset(crossings)[crossings[0]] == 2;
  }

  lemma NotchedStays()
    ensures RoundCorners(NOTCHED) == NOTCHED
  {
    forall n: int ensures RoundCoordinate(Rounding.Parts(n, COORDINATE_STEPS)) == Rounding.Parts(n, COORDINATE_STEPS) {
      Rounding.RoundParts(n, COORDINATE_STEPS);
    }
    assert Rounding.Parts(0, COORDINATE_STEPS) == 0.0;
    assert Rounding.Parts(-10000, COORDINATE_STEPS) == -0.001 && Rounding.Parts(10000, COORDINATE_STEPS) == 0.001;
    assert Rounding.Parts(6000, COORDINATE_STEPS) == 0.0006 && Rounding.Parts(4000, COORDINATE_STEPS) == 0.0004;
    assert Rounding.Parts(-16000, COORDINATE_STEPS) == -0.0016;
  }

  lemma NotchedArea()
    ensures TwiceArea(Map(Chart, NOTCHED)) == -0.0000032
  {
    var ring := Map(Chart, NOTCHED);
    ShoelaceIsFan(ring);
    assert ring[0] == Corner(0) && ring[1] == Corner(1) && ring[2] == Corner(2);
    assert ring[3] == Corner(3) && ring[4] == Corner(4);
    assert TwiceFan(ring, 2) == 0.0;
    assert TwiceFan(ring, 3) == Orientation(Corner(0), Corner(1), Corner(2)) == -0.0000012;
    assert Orientation(Corner(0), Corner(2), Corner(3)) == -0.0000044;
    assert Orientation(Corner(0), Corner(3), Corner(4)) == 0.0000024;
  }

  /** The outline is one that is stored as it is: simple, rounded, of about two hectares. */
  lemma NotchedIsStored(earth: Earth)
    requires NearEquator(earth, 0.0)
    ensures NormalisePolygon(earth, NOTCHED) == Ok(NOTCHED)
  {
    NotchedStays();
    NotchedIsSimple();
    NotchedAverage();
    NotchedArea();
    AreaWithinLimits(earth, NOTCHED, 0.0);
    SimpleIff(earth, NOTCHED);
    assert NOTCHED[0] != NOTCHED[4];
  }

  /** interior_point does not always keep its documented guarantee, even on a stored outline. */
  lemma InteriorPointCanBeOutside(earth: Earth)
    ensures Simple(NOTCHED)
    ensures NearEquator(earth, 0.0) ==> NormalisePolygon(earth, NOTCHED) == Ok(NOTCHED)
    ensures InteriorPoint(earth, NOTCHED).Ok? && !Inside(earth, NOTCHED, InteriorPoint(earth, NOTCHED).value)
  {
    NotchedIsSimple();
    NotchedAverage();
    var kx := earth.East(0.0);
    NotchedCrossings(earth, kx);
    var edges := Edges(ProjectRing(earth, LatLng(0.0, 0.0), NOTCHED));
    CrossingsCounted(edges, 0.0);
    CrossingsDecide(Crossings(edges), ScanLine(earth, NOTCHED), kx);
    assert NOTCHED[0].lat != NOTCHED[1].lat;
    InteriorPointInside(earth, NOTCHED);
    if NearEquator(earth, 0.0) {
      NotchedIsStored(earth);
    }
  }
}

/** A simple outline that normalises differently when its closing corner is repeated. */
module ClosedTwice {
  // It is a square of about 110 metres at the equator, well within the limits on the area.

  import opened Wrappers
  import opened Folds
  import opened Plane
  import opened Geofence
  import opened Outlines
  import Rounding

  const SQUARE: seq<LatLng> := [LatLng(0.0, 0.0), LatLng(0.0, 0.001), LatLng(0.001, 0.001), LatLng(0.001, 0.0)]

  /** The square as GeoJSON sends it, with its first corner repeated. */
  const CLOSED_SQUARE: seq<LatLng> := SQUARE + [SQUARE[0]]

  lemma SquareIsSimple()
    ensures Simple(SQUARE)
  {
    var edges := ChartEdges(SQUARE);
    forall i, j | 0 <= i < 4 && 0 <= j < 4 && i != j && !Neighbours(i, j, 4) ensures !Meet(edges[i], edges[j]) {
      var low := if i < j then i else j;
      OppositeApart(low);
      MeetSymmetric(edges[i], edges[j]);
    }
  }

  lemma OppositeApart(i: nat)
    requires i < 2
    ensures !Meet(ChartEdges(SQUARE)[i], ChartEdges(SQUARE)[i + 2])
  {
    var e, f := ChartEdges(SQUARE)[i], ChartEdges(SQUARE)[i + 2];
    if i == 0 {
      assert e == Edge(Point(0.0, 0.0), Point(0.001, 0.0)) && f == Edge(Point(0.001, 0.001), Point(0.0, 0.001));
      SouthAndNorth();
    } else {
      assert e == Edge(Point(0.001, 0.0), Point(0.001, 0.001)) && f == Edge(Point(0.0, 0.001), Point(0.0, 0.0));
      EastAndWest();
    }
  }

  lemma SouthAndNorth()
    ensures !Meet(Edge(Point(0.0, 0.0), Point(0.001, 0.0)), Edge(Point(0.001, 0.001), Point(0.0, 0.001)))
  {
    CrossIffMeet(Point(0.0, 0.0), Point(0.001, 0.0), Point(0.001, 0.001), Point(0.0, 0.001));
  }

  lemma EastAndWest()
    ensures !Meet(Edge(Point(0.001, 0.0), Point(0.001, 0.001)), Edge(Point(0.0, 0.001), Point(0.0, 0.0)))
  {
    CrossIffMeet(Point(0.001, 0.0), Point(0.001, 0.001), Point(0.0, 0.001), Point(0.0, 0.0));
  }

  lemma ClosedSquareStays()
    ensures RoundCorners(CLOSED_SQUARE) == CLOSED_SQUARE
  {
    Rounding.RoundParts(0, COORDINATE_STEPS);
    Rounding.RoundParts(10000, COORDINATE_STEPS);
    assert Rounding.Parts(0, COORDINATE_STEPS) == 0.0 && Rounding.Parts(10000, COORDINATE_STEPS) == 0.001;
  }

  lemma SquareAverage()
    ensures CornerAverage(SQUARE).lat == 0.0005
  {
    assert SQUARE[..3][..2] == SQUARE[..2] && SQUARE[..2][..1] == SQUARE[..1] && SQUARE[..1][..0] == [];
    assert Sum(SQUARE[..1], LatOf) == 0.0;
    assert Sum(SQUARE[..2], LatOf) == 0.0;
    assert Sum(SQUARE[..3], LatOf) == 0.001;
  }

  lemma SquareArea()
    ensures TwiceArea(Map(Chart, SQUARE)) == 0.000002
  {
    var ring := Map(Chart, SQUARE);
    ShoelaceIsFan(ring);
    assert ring[0] == Point(0.0, 0.0) && ring[1] == Point(0.001, 0.0);
    assert ring[2] == Point(0.001, 0.001) && ring[3] == Point(0.0, 0.001);
    assert TwiceFan(ring, 2) == 0.0;
    assert TwiceFan(ring, 3) == 0.000001;
  }

  lemma SquareIsValid(earth: Earth)
    requires NearEquator(earth, 0.0005)
    ensures Validate(earth, SQUARE) == Ok(SQUARE) && Validate(earth, CLOSED_SQUARE) == Err(NotSimple)
  {
    SquareIsSimple();
    SquareAverage();
    SquareArea();
    AreaWithinLimits(earth, SQUARE, 0.0005);
    SimpleIff(earth, SQUARE);
    SimpleIff(earth, CLOSED_SQUARE);
    assert CLOSED_SQUARE[0] == CLOSED_SQUARE[4];
  }

  lemma ClosedSquareOpens()
    ensures Opened(RoundCorners(SQUARE)) == SQUARE && Opened(RoundCorners(CLOSED_SQUARE)) == SQUARE
    ensures Opened(RoundCorners(CLOSED_SQUARE + [CLOSED_SQUARE[0]])) == CLOSED_SQUARE
  {
    ClosedSquareStays();
    assert RoundCorners(SQUARE) == RoundCorners(CLOSED_SQUARE)[..4];
    assert RoundCorners(CLOSED_SQUARE + [CLOSED_SQUARE[0]]) == CLOSED_SQUARE + [CLOSED_SQUARE[0]];
  }

  /** Closed once, the square is opened and accepted; closed twice, it is refused for repeating a
      corner. */
  lemma SquareClosedTwice(earth: Earth)
    requires NearEquator(earth, 0.0005)
    ensures NormalisePolygon(earth, SQUARE) == NormalisePolygon(earth, CLOSED_SQUARE) == Ok(SQUARE)
    ensures NormalisePolygon(earth, CLOSED_SQUARE + [CLOSED_SQUARE[0]]) == Err(NotSimple)
  {
    ClosedSquareOpens();
    SquareIsValid(earth);
  }
}

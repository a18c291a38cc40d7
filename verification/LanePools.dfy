/**
 Lane metrics over a range of months: the months' rows are folded into one pool per lane, and each
 statistic is computed once over the pool.
 */
module LanePools {
  import opened Wrappers
  import opened Folds
  import opened OrderStats

  type Lane = (nat, nat)  // origin and destination precinct

  /** One month of one lane, as the view returns it. */
  datatype Row = Row(lane: Lane, tripCount: int, exceptionCount: int, transit: seq<real>, delta: seq<real>)

  /** The running totals of a lane. */
  datatype Totals = Totals(tripCount: int, exceptionCount: int, transit: seq<real>, delta: seq<real>)

  datatype LaneMetrics = LaneMetrics(
    lane: Lane, tripCount: int, exceptionCount: int, transit: DurationStats, delta: DurationStats)

  /** Exceptions per trip, divided once, after summing. */
  function ExceptionDensity(m: LaneMetrics): Option<real> {
    SafeRatio(m.exceptionCount as real, m.tripCount as real)
  }

  class LanePool {
    var tripCount: int
    var exceptionCount: int
    var transit: seq<real>
    var delta: seq<real>

    function Contents(): Totals
      reads this
    {
      Totals(tripCount, exceptionCount, transit, delta)
    }

    constructor ()
      ensures Contents() == EMPTY
    {
      tripCount, exceptionCount, transit, delta := 0, 0, [], [];
    }

    method Add(row: Row)
      modifies this
      ensures Contents() == AddRow(old(Contents()), row)
    {
      tripCount := tripCount + row.tripCount;
      exceptionCount := exceptionCount + row.exceptionCount;
      transit := transit + row.transit;
      delta := delta + row.delta;
    }
  }

  const EMPTY := Totals(0, 0, [], [])

  function AddRow(t: Totals, row: Row): Totals {
    Totals(t.tripCount + row.tripCount, t.exceptionCount + row.exceptionCount,
           t.transit + row.transit, t.delta + row.delta)
  }

  /** All rows of a lane put together. */
  function Pooled(rows: seq<Row>, lane: Lane): Totals {
    if rows == [] then EMPTY
    else
      var before := Pooled(rows[..|rows| - 1], lane);
      if rows[|rows| - 1].lane == lane then AddRow(before, rows[|rows| - 1]) else before
  }

  /** The lanes in the order in which they first appear. */
  function Lanes(rows: seq<Row>): (r: seq<Lane>)
    ensures forall i, j :: 0 <= i < j < |r| ==> r[i] != r[j]
  {
    if rows == [] then []
    else
      var before, lane := Lanes(rows[..|rows| - 1]), rows[|rows| - 1].lane;
      if lane in before then before else before + [lane]
  }

  function MetricsOf(lane: Lane, t: Totals): LaneMetrics {
    LaneMetrics(lane, t.tripCount, t.exceptionCount, FromValues(t.transit), FromValues(t.delta))
  }

  /** The lanes with their totals, in the order of the lanes. */
  function Entries(rows: seq<Row>): (r: seq<(Lane, Totals)>)
    ensures |r| == |Lanes(rows)|
    ensures forall i :: 0 <= i < |r| ==> r[i] == (Lanes(rows)[i], Pooled(rows, Lanes(rows)[i]))
  {
    seq(|Lanes(rows)|, i requires 0 <= i < |Lanes(rows)| => (Lanes(rows)[i], Pooled(rows, Lanes(rows)[i])))
  }

  function EntryMetrics(e: (Lane, Totals)): LaneMetrics { MetricsOf(e.0, e.1) }

  function AllMetrics(rows: seq<Row>): seq<LaneMetrics> { Map(EntryMetrics, Entries(rows)) }

  /** The pools of a dict with distinct keys are distinct objects. */
  ghost predicate Separate(pools: map<Lane, LanePool>) {
    forall a, b :: a in pools && b in pools && a != b ==> pools[a] != pools[b]
  }

  /** One more row may bring a lane, and changes the pool of its own lane alone. */
  lemma RowNext(rows: seq<Row>, row: Row)
    ensures Lanes(rows + [row]) == if row.lane in Lanes(rows) then Lanes(rows) else Lanes(rows) + [row.lane]
    ensures forall lane :: Pooled(rows + [row], lane)
                        == if row.lane == lane then AddRow(Pooled(rows, lane), row) else Pooled(rows, lane)
  {
    assert (rows + [row])[..|rows|] == rows;
  }

  lemma {:induction false} NoRowsEmpty(rows: seq<Row>, lane: Lane)
    requires lane !in Lanes(rows)
    ensures Pooled(rows, lane) == EMPTY
  {
    if rows != [] {
      NoRowsEmpty(rows[..|rows| - 1], lane);
    }
  }

  /** The dict with a pool for the lane, an empty one if it had none. */
  method SetDefault(pools: map<Lane, LanePool>, order: seq<Lane>, lane: Lane)
    returns (pools': map<Lane, LanePool>, order': seq<Lane>)
    requires Separate(pools)
    ensures lane in pools ==> pools' == pools && order' == order
    ensures lane !in pools ==> pools'.Keys == pools.Keys + {lane} && order' == order + [lane]
    ensures lane !in pools ==> fresh(pools'[lane]) && pools'[lane].Contents() == EMPTY
    ensures forall other :: other in pools ==> pools'[other] == pools[other]
    ensures Separate(pools')
  {
    pools', order' := pools, order;
    if lane !in pools {
      var added := new LanePool();
      pools', order' := pools[lane := added], order + [lane];
    }
  }

  /** One separate pool per lane, in order of first appearance, each with all rows of its lane. */
  ghost predicate Holds(pools: map<Lane, LanePool>, order: seq<Lane>, rows: seq<Row>)
    reads pools.Values
  {
    && order == Lanes(rows) && (forall lane :: lane in pools <==> lane in order)
    && Separate(pools)
    && forall lane :: lane in pools ==> pools[lane].Contents() == Pooled(rows, lane)
  }

  /** One pass of the fold. */
  method PoolRow(pools: map<Lane, LanePool>, order: seq<Lane>, row: Row, ghost rows: seq<Row>)
    returns (pools': map<Lane, LanePool>, order': seq<Lane>)
    requires Holds(pools, order, rows)
    modifies pools.Values
    ensures Holds(pools', order', rows + [row])
    ensures forall lane :: lane in pools' ==> pools'[lane] in pools.Values || fresh(pools'[lane])
  {
    RowNext(rows, row);
    if row.lane !in pools {
      NoRowsEmpty(rows, row.lane);
    }
    pools', order' := SetDefault(pools, order, row.lane);
    var pool := pools'[row.lane];
    assert pool.Contents() == Pooled(rows, row.lane);
    pool.Add(row);
    forall lane | lane in pools' ensures pools'[lane].Contents() == Pooled(rows + [row], lane) {
      if lane != row.lane {
        assert pools'[lane] != pool && pools'[lane] == pools[lane];
      }
    }
  }

  /** Folds the rows into one pool per lane. */
  method FoldRows(rows: seq<Row>) returns (pools: map<Lane, LanePool>, order: seq<Lane>)
    ensures order == Lanes(rows)
    ensures forall lane :: lane in pools <==> lane in order
    ensures forall lane :: lane in pools ==> pools[lane].Contents() == Pooled(rows, lane)
  {
    pools, order := map[], [];
    for i := 0 to |rows|
      invariant Holds(pools, order, rows[..i])
      invariant forall lane :: lane in pools ==> fresh(pools[lane])
    {
      pools, order := PoolRow(pools, order, rows[i], rows[..i]);
      assert rows[..i + 1] == rows[..i] + [rows[i]];
    }
    assert rows[..|rows|] == rows;
  }

  /** Folds the rows into pools, and computes every statistic once over its pool. */
  method GetLaneMetrics(rows: seq<Row>) returns (metrics: seq<LaneMetrics>)
    ensures metrics == AllMetrics(rows) && |metrics| == |Lanes(rows)|
    ensures forall i :: 0 <= i < |metrics| ==> MetricsDescribe(metrics[i], rows, Lanes(rows)[i])
  {
    var pools, order := FoldRows(rows);
    var items: seq<(Lane, Totals)> := [];
    for k := 0 to |order|
      invariant items == Entries(rows)[..k]
    {
      assert order[k] in order;
      items := items + [(order[k], pools[order[k]].Contents())];
    }
    metrics := Map(EntryMetrics, items);
    forall i | 0 <= i < |Lanes(rows)| ensures MetricsDescribe(AllMetrics(rows)[i], rows, Lanes(rows)[i]) {
      MetricsArePooled(rows, i);
      PooledMetricsDescribe(rows, Lanes(rows)[i]);
    }
  }

  /** One result per lane, computed over all rows of the lane. */
  lemma MetricsArePooled(rows: seq<Row>, i: nat)
    requires i < |Lanes(rows)|
    ensures |AllMetrics(rows)| == |Lanes(rows)|
    ensures AllMetrics(rows)[i] == MetricsOf(Lanes(rows)[i], Pooled(rows, Lanes(rows)[i]))
  {
  }

  // ---- Exceptions per trip -----------------------------------------------------------------------

  function Total(rows: seq<Row>, lane: Lane, count: Row -> int): int {
    if rows == [] then 0
    else
      var last := rows[|rows| - 1];
      Total(rows[..|rows| - 1], lane, count) + if last.lane == lane then count(last) else 0
  }

  /** The density of a lane is the ratio of the sums over its months, not a mean of monthly ratios; a
      lane without trips has none. */
  lemma DensityOfSums(rows: seq<Row>, lane: Lane)
    ensures IsRatio(ExceptionDensity(MetricsOf(lane, Pooled(rows, lane))),
                    Total(rows, lane, (r: Row) => r.exceptionCount), Total(rows, lane, (r: Row) => r.tripCount))
  {
    PooledTotals(rows, lane);
    DensityIsRatio(lane, Pooled(rows, lane));
  }

  /** A ratio of counts, which is absent exactly when the second one is zero. */
  predicate IsRatio(ratio: Option<real>, count: int, size: int) {
    (ratio.None? <==> size == 0) && (ratio.Some? ==> ratio.value * size as real == count as real)
  }

  lemma DensityIsRatio(lane: Lane, t: Totals)
    ensures IsRatio(ExceptionDensity(MetricsOf(lane, t)), t.exceptionCount, t.tripCount)
  {
    SafeRatioIs(t.exceptionCount, t.tripCount);
  }

  lemma SafeRatioIs(count: int, size: int)
    ensures IsRatio(SafeRatio(count as real, size as real), count, size)
  {
  }

  // ---- The metrics from the rows -----------------------------------------------------------------

  /** The observations of a lane over its rows. */
  function Observations(rows: seq<Row>, lane: Lane, of: Row -> seq<real>): multiset<real> {
    if rows == [] then multiset{}
    else
      var last := rows[|rows| - 1];
      Observations(rows[..|rows| - 1], lane, of) + if last.lane == lane then multiset(of(last)) else multiset{}
  }

  lemma {:induction false} PooledObservations(rows: seq<Row>, lane: Lane)
    ensures multiset(Pooled(rows, lane).transit) == Observations(rows, lane, (r: Row) => r.transit)
    ensures multiset(Pooled(rows, lane).delta) == Observations(rows, lane, (r: Row) => r.delta)
  {
    if rows != [] {
      PooledObservations(rows[..|rows| - 1], lane);
    }
  }

  /** The metrics of a lane are those of its rows: the counts add up, and each distribution is that of the
      observations of its own kind. */
  ghost predicate MetricsDescribe(m: LaneMetrics, rows: seq<Row>, lane: Lane) {
    && m.lane == lane
    && m.tripCount == Total(rows, lane, (r: Row) => r.tripCount)
    && m.exceptionCount == Total(rows, lane, (r: Row) => r.exceptionCount)
    && Describes(m.transit, Observations(rows, lane, (r: Row) => r.transit))
    && Describes(m.delta, Observations(rows, lane, (r: Row) => r.delta))
  }

  lemma {:induction false} PooledTotals(rows: seq<Row>, lane: Lane)
    ensures Pooled(rows, lane).tripCount == Total(rows, lane, (r: Row) => r.tripCount)
    ensures Pooled(rows, lane).exceptionCount == Total(rows, lane, (r: Row) => r.exceptionCount)
  {
    if rows != [] {
      PooledTotals(rows[..|rows| - 1], lane);
    }
  }

  lemma PooledMetricsDescribe(rows: seq<Row>, lane: Lane)
    ensures MetricsDescribe(MetricsOf(lane, Pooled(rows, lane)), rows, lane)
  {
    PooledTotals(rows, lane);
    PooledObservations(rows, lane);
    StatsDescribe(Pooled(rows, lane).transit);
    StatsDescribe(Pooled(rows, lane).delta);
  }

  /** Of two lanes listed, the earlier one has a row before every row of the later one. */
  lemma {:induction false} LanesByFirstRow(rows: seq<Row>, i: nat, j: nat)
    requires i < j < |Lanes(rows)|
    ensures exists a :: 0 <= a < |rows| && rows[a].lane == Lanes(rows)[i]
              && forall b :: 0 <= b < |rows| && rows[b].lane == Lanes(rows)[j] ==> a < b
  {
    var front, last := rows[..|rows| - 1], rows[|rows| - 1];
    LanesAreThoseOfRows(front, Lanes(rows)[j]);
    if j < |Lanes(front)| {
      LanesByFirstRow(front, i, j);
      var a :| 0 <= a < |front| && front[a].lane == Lanes(front)[i]
        && forall b :: 0 <= b < |front| && front[b].lane == Lanes(front)[j] ==> a < b;
      assert rows[a].lane == Lanes(rows)[i];
      forall b | 0 <= b < |rows| && rows[b].lane == Lanes(rows)[j] ensures a < b {
        assert b < |front| ==> front[b].lane == Lanes(front)[j];
      }
    } else {
      LanesAreThoseOfRows(front, Lanes(rows)[i]);
      var a :| 0 <= a < |front| && front[a].lane == Lanes(rows)[i];
      assert rows[a].lane == Lanes(rows)[i];
      assert forall b :: 0 <= b < |front| ==> rows[b] == front[b] && front[b].lane != Lanes(rows)[j];
    }
  }

  // ---- However the rows are split across months ------------------------------------------------

  /** Totals without the order of the observations. */
  datatype Summary = Summary(tripCount: int, exceptionCount: int, transit: multiset<real>, delta: multiset<real>)

  function SummaryOf(t: Totals): Summary {
    Summary(t.tripCount, t.exceptionCount, multiset(t.transit), multiset(t.delta))
  }

  function Plus(a: Summary, b: Summary): Summary {
    Summary(a.tripCount + b.tripCount, a.exceptionCount + b.exceptionCount, a.transit + b.transit, a.delta + b.delta)
  }

  /** What a list of rows says about a lane. */
  function Observed(rows: seq<Row>, lane: Lane): Summary { SummaryOf(Pooled(rows, lane)) }

  /** The metrics of a lane depend on its totals and its raw observations alone. */
  lemma MetricsFromObservations(a: seq<Row>, b: seq<Row>, lane: Lane)
    requires Observed(a, lane) == Observed(b, lane)
    ensures MetricsOf(lane, Pooled(a, lane)) == MetricsOf(lane, Pooled(b, lane))
  {
    StatsForgetOrder(Pooled(a, lane).transit, Pooled(b, lane).transit);
    StatsForgetOrder(Pooled(a, lane).delta, Pooled(b, lane).delta);
  }

  lemma {:induction false} ObservedConcat(a: seq<Row>, b: seq<Row>, lane: Lane)
    ensures Observed(a + b, lane) == Plus(Observed(a, lane), Observed(b, lane))
  {
    if b == [] {
      assert a + b == a;
    } else {
      assert (a + b)[..|a + b| - 1] == a + b[..|b| - 1];
      ObservedConcat(a, b[..|b| - 1], lane);
    }
  }

  /** What one row adds to a lane. */
  function Share(row: Row, lane: Lane): Summary {
    if row.lane == lane then Summary(row.tripCount, row.exceptionCount, multiset(row.transit), multiset(row.delta))
    else Summary(0, 0, multiset{}, multiset{})
  }

  lemma ObservedSnoc(rows: seq<Row>, row: Row, lane: Lane)
    ensures Observed(rows + [row], lane) == Plus(Observed(rows, lane), Share(row, lane))
  {
    assert (rows + [row])[..|rows|] == rows;
  }

  lemma PlusCommutes(a: Summary, b: Summary, c: Summary)
    ensures Plus(Plus(a, b), c) == Plus(Plus(a, c), b)
  {
  }

  lemma ObservedInsert(front: seq<Row>, row: Row, back: seq<Row>, lane: Lane)
    ensures Observed(front + [row] + back, lane) == Plus(Observed(front + back, lane), Share(row, lane))
  {
    ObservedConcat(front + [row], back, lane);
    ObservedSnoc(front, row, lane);
    ObservedConcat(front, back, lane);
    PlusCommutes(Observed(front, lane), Share(row, lane), Observed(back, lane));
  }

  lemma ObservedWithout(rows: seq<Row>, i: nat, lane: Lane)
    requires i < |rows|
    ensures Observed(rows, lane) == Plus(Observed(Without(rows, i), lane), Share(rows[i], lane))
  {
    assert rows == rows[..i] + [rows[i]] + rows[i + 1..];
    ObservedInsert(rows[..i], rows[i], rows[i + 1..], lane);
  }

  /** A month's row may be split into two in any way that shares out its counts and observations. */
  predicate Splits(row: Row, first: Row, second: Row) {
    && first.lane == second.lane == row.lane
    && row.tripCount == first.tripCount + second.tripCount
    && row.exceptionCount == first.exceptionCount + second.exceptionCount
    && multiset(row.transit) == multiset(first.transit) + multiset(second.transit)
    && multiset(row.delta) == multiset(first.delta) + multiset(second.delta)
  }

  lemma PlusAssociates(a: Summary, b: Summary, c: Summary)
    ensures Plus(Plus(a, b), c) == Plus(a, Plus(b, c))
  {
    assert (a.transit + b.transit) + c.transit == a.transit + (b.transit + c.transit);
    assert (a.delta + b.delta) + c.delta == a.delta + (b.delta + c.delta);
  }

  lemma SharesAddUp(rest: Summary, row: Row, first: Row, second: Row, lane: Lane)
    requires Splits(row, first, second)
    ensures Plus(Plus(rest, Share(first, lane)), Share(second, lane)) == Plus(rest, Share(row, lane))
  {
    PlusAssociates(rest, Share(first, lane), Share(second, lane));
    assert Plus(Share(first, lane), Share(second, lane)) == Share(row, lane);
  }

  /** Splitting a month in two changes the metrics of no lane. */
  lemma SplitMonth(before: seq<Row>, row: Row, after: seq<Row>, first: Row, second: Row, lane: Lane)
    requires Splits(row, first, second)
    ensures MetricsOf(lane, Pooled(before + [row] + after, lane))
         == MetricsOf(lane, Pooled(before + [first] + [second] + after, lane))
  {
    var whole, halves := before + [row] + after, before + [first] + [second] + after;
    ObservedInsert(before, row, after, lane);
    ObservedInsert(before + [first], second, after, lane);
    ObservedInsert(before, first, after, lane);
    SharesAddUp(Observed(before + after, lane), row, first, second, lane);
    MetricsFromObservations(whole, halves, lane);
  }

  /** Nor does listing the rows in another order. */
  lemma {:induction false} ObservedPermutes(a: seq<Row>, b: seq<Row>, lane: Lane)
    requires multiset(a) == multiset(b)
    ensures Observed(a, lane) == Observed(b, lane)
  {
    assert |a| == |multiset(a)| == |multiset(b)| == |b|;
    if a != [] {
      var last := |a| - 1;
      assert a[last] in multiset(b);
      var i :| 0 <= i < |b| && b[i] == a[last];
      WithoutMultiset(a, last);
      WithoutMultiset(b, i);
      ObservedPermutes(Without(a, last), Without(b, i), lane);
      ObservedWithout(a, last, lane);
      ObservedWithout(b, i, lane);
    }
  }

  lemma ReorderMonths(a: seq<Row>, b: seq<Row>, lane: Lane)
    requires multiset(a) == multiset(b)
    ensures MetricsOf(lane, Pooled(a, lane)) == MetricsOf(lane, Pooled(b, lane))
  {
    ObservedPermutes(a, b, lane);
    MetricsFromObservations(a, b, lane);
  }

  /** A lane is reported exactly when some row is about it. */
  lemma {:induction false} LanesAreThoseOfRows(rows: seq<Row>, lane: Lane)
    ensures lane in Lanes(rows) <==> exists i :: 0 <= i < |rows| && rows[i].lane == lane
  {
    if rows != [] {
      var front := rows[..|rows| - 1];
      LanesAreThoseOfRows(front, lane);
      if exists i :: 0 <= i < |front| && front[i].lane == lane {
        var i :| 0 <= i < |front| && front[i].lane == lane;
        assert rows[i].lane == lane;
      }
      if lane in Lanes(rows) && lane !in Lanes(front) {
        assert rows[|rows| - 1].lane == lane;
      }
      if exists i :: 0 <= i < |rows| && rows[i].lane == lane {
        var i :| 0 <= i < |rows| && rows[i].lane == lane;
        if i < |front| {
          assert front[i].lane == lane;
        }
      }
    }
  }
}

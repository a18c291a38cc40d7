/**
 Interpolated percentiles and the distribution of a lane measure over pooled observations.
 */
module OrderStats {
  import opened Wrappers
  import Reals
  import opened Folds
  import opened Sorting

  const MEDIAN_FRACTION := 0.5
  const P90_FRACTION := 0.9

  datatype StatsError = FractionOutOfRange

  function SafeRatio(numerator: real, denominator: real): Option<real> {
    if denominator == 0.0 then None else Some(numerator / denominator)
  }

  function Ceil(x: real): int { -((-x).Floor) }

  predicate Ordered(s: seq<real>) { forall i, j :: 0 <= i < j < |s| ==> s[i] <= s[j] }

  /** Linear interpolation between the ranks next to a rank. */
  function Interpolate(ordered: seq<real>, rank: real): real
    requires 0.0 <= rank <= (|ordered| - 1) as real
  {
    var lower, upper := rank.Floor, Ceil(rank);
    ordered[lower] + (ordered[upper] - ordered[lower]) * (rank - lower as real)
  }

  /** The rank of a fraction among n ordered observations. */
  function Rank(fraction: real, n: nat): (r: real)
    requires 0.0 <= fraction <= 1.0 && n > 0
    ensures 0.0 <= r <= (n - 1) as real
  {
    RankInRange(fraction, (n - 1) as real);
    fraction * (n - 1) as real
  }

  lemma RankInRange(fraction: real, last: real)
    requires 0.0 <= fraction <= 1.0 && last >= 0.0
    ensures 0.0 <= fraction * last <= last
  {
    var _ := Reals.ShareOf(fraction, last);
  }

  /** None for no observations; an error for a fraction outside 0 to 1. */
  function Percentile(values: seq<real>, fraction: real): Result<Option<real>, StatsError> {
    if !(0.0 <= fraction <= 1.0) then Err(FractionOutOfRange)
    else if values == [] then Ok(None)
    else Ok(Some(Interpolate(SortReals(values), Rank(fraction, |values|))))
  }

  /** A percentile depends on the observations and not on their order. */
  lemma PercentileForgetsOrder(a: seq<real>, b: seq<real>, fraction: real)
    requires multiset(a) == multiset(b)
    ensures Percentile(a, fraction) == Percentile(b, fraction)
  {
    assert |a| == |multiset(a)| == |multiset(b)| == |b|;
    SortRealsForgetsOrder(a, b);
  }

  /** The interpolated value lies between its two neighbours. */
  lemma BetweenNeighbours(s: seq<real>, rank: real)
    requires Ordered(s) && 0.0 <= rank <= (|s| - 1) as real
    ensures s[rank.Floor] <= Interpolate(s, rank) <= s[Ceil(rank)]
  {
    var low, high, t := s[rank.Floor], s[Ceil(rank)], rank - rank.Floor as real;
    assert low <= high && 0.0 <= t < 1.0;
    var _ := Reals.NonNegativeProduct(high - low, t);
    var _ := Reals.NonNegativeProduct(high - low, 1.0 - t);
    assert (high - low) * (1.0 - t) == (high - low) - (high - low) * t;
  }

  lemma InterpolateMonotone(s: seq<real>, r: real, t: real)
    requires Ordered(s) && 0.0 <= r <= t <= (|s| - 1) as real
    ensures Interpolate(s, r) <= Interpolate(s, t)
  {
    BetweenNeighbours(s, r);
    BetweenNeighbours(s, t);
    if r.Floor == t.Floor {
      if r == r.Floor as real {
        assert Interpolate(s, r) == s[r.Floor];
      } else {
        SameStep(s, r, t);
      }
    } else {
      assert Ceil(r) <= t.Floor;
      assert s[Ceil(r)] <= s[t.Floor];
    }
  }

  /** Between the same two ranks the values rise with the rank. */
  lemma SameStep(s: seq<real>, r: real, t: real)
    requires Ordered(s) && 0.0 <= r <= t <= (|s| - 1) as real && r.Floor == t.Floor && r != r.Floor as real
    ensures Interpolate(s, r) <= Interpolate(s, t)
  {
    var step := s[Ceil(r)] - s[r.Floor];
    assert Ceil(r) == Ceil(t) && step >= 0.0;
    var _ := Reals.NonNegativeProduct(step, t - r);
    assert step * (t - r.Floor as real) == step * (r - r.Floor as real) + step * (t - r);
  }

  lemma RankMonotone(f: real, g: real, n: nat)
    requires 0.0 <= f <= g <= 1.0 && n > 0
    ensures Rank(f, n) <= Rank(g, n)
    ensures Rank(0.0, n) == 0.0 && Rank(1.0, n) == (n - 1) as real
  {
    var _ := Reals.NonNegativeProduct(g - f, (n - 1) as real);
    assert (g - f) * (n - 1) as real == g * (n - 1) as real - f * (n - 1) as real;
  }

  lemma SortedExtremes(values: seq<real>)
    requires values != []
    ensures var s := SortReals(values);
            && s[0] in values && s[|s| - 1] in values
            && forall v :: v in values ==> s[0] <= v <= s[|s| - 1]
  {
    var s := SortReals(values);
    forall v | v in values ensures s[0] <= v <= s[|s| - 1] {
      assert v in multiset(s);
      var i :| 0 <= i < |s| && s[i] == v;
    }
    assert s[0] in multiset(values) && s[|s| - 1] in multiset(values);
  }

  /** Percentiles rise with the fraction. */
  lemma PercentileMonotone(values: seq<real>, f: real, g: real)
    requires values != [] && 0.0 <= f <= g <= 1.0
    ensures Percentile(values, f).value.value <= Percentile(values, g).value.value
  {
    RankMonotone(f, g, |values|);
    InterpolateMonotone(SortReals(values), Rank(f, |values|), Rank(g, |values|));
  }

  /** They start at the least observation and end at the greatest. */
  lemma PercentileEnds(values: seq<real>)
    requires values != []
    ensures Percentile(values, 0.0) == Ok(Some(SortReals(values)[0]))
    ensures Percentile(values, 1.0) == Ok(Some(SortReals(values)[|values| - 1]))
  {
    RankMonotone(0.0, 1.0, |values|);
    AtInteger(SortReals(values), 0);
    AtInteger(SortReals(values), |values| - 1);
  }

  lemma InterpolateInside(s: seq<real>, rank: real, k: nat, t: real)
    requires k + 1 < |s| && 0.0 < t < 1.0 && rank == k as real + t
    ensures Interpolate(s, rank) == (1.0 - t) * s[k] + t * s[k + 1]
  {
    assert rank.Floor == k && Ceil(rank) == k + 1;
    Mixture(s[k], s[k + 1], t);
  }

  lemma Mixture(low: real, high: real, t: real)
    ensures low + (high - low) * t == (1.0 - t) * low + t * high
  {
  }

  lemma PercentileAtRank(values: seq<real>, fraction: real, rank: real)
    requires values != [] && 0.0 <= fraction <= 1.0 && rank == fraction * (|values| - 1) as real
    ensures 0.0 <= rank <= (|values| - 1) as real
    ensures Percentile(values, fraction) == Ok(Some(Interpolate(SortReals(values), rank)))
  {
    assert rank == Rank(fraction, |values|);
  }

  /** Between neighbouring ranks k and k + 1 they rise in a straight line: a share t of the way in
      rank is a share t of the way in value. */
  lemma PercentileInterpolates(values: seq<real>, fraction: real, rank: real, k: nat, t: real) returns (value: real)
    requires k + 1 < |values| && 0.0 <= t <= 1.0 && 0.0 <= fraction <= 1.0
    requires rank == fraction * (|values| - 1) as real && rank == k as real + t
    ensures value == (1.0 - t) * SortReals(values)[k] + t * SortReals(values)[k + 1]
    ensures Percentile(values, fraction) == Ok(Some(value))
  {
    PercentileAtRank(values, fraction, rank);
    value := InterpolateBetween(SortReals(values), rank, k, t);
  }

  lemma InterpolateBetween(s: seq<real>, rank: real, k: nat, t: real) returns (value: real)
    requires k + 1 < |s| && 0.0 <= t <= 1.0 && rank == k as real + t
    ensures value == (1.0 - t) * s[k] + t * s[k + 1]
    ensures Interpolate(s, rank) == value
  {
    value := (1.0 - t) * s[k] + t * s[k + 1];
    if t == 0.0 {
      AtInteger(s, k);
    } else if t == 1.0 {
      AtInteger(s, k + 1);
    } else {
      InterpolateInside(s, rank, k, t);
    }
  }

  lemma AtInteger(s: seq<real>, n: nat)
    requires n < |s|
    ensures Interpolate(s, n as real) == s[n]
  {
    assert (n as real).Floor == n && (-(n as real)).Floor == 0 - n;
  }

  // ---- Distribution of a measure ---------------------------------------------------------------

  datatype DurationStats = DurationStats(
    sampleCount: nat, mean: Option<real>, minimum: Option<real>, maximum: Option<real>,
    median: Option<real>, p90: Option<real>)

  function Least(values: seq<real>): Option<real> {
    if values == [] then None else Some(SortReals(values)[0])
  }

  function Greatest(values: seq<real>): Option<real> {
    if values == [] then None else Some(SortReals(values)[|values| - 1])
  }

  function Identity(x: real): real { x }

  /** Every statistic once, over the whole pooled list. */
  function FromValues(values: seq<real>): DurationStats {
    DurationStats(
      |values|, SafeRatio(Sum(values, Identity), |values| as real), Least(values), Greatest(values),
      Percentile(values, MEDIAN_FRACTION).value, Percentile(values, P90_FRACTION).value)
  }

  /** The statistics depend on the observations and not on their order. */
  lemma StatsForgetOrder(a: seq<real>, b: seq<real>)
    requires multiset(a) == multiset(b)
    ensures FromValues(a) == FromValues(b)
  {
    assert |a| == |multiset(a)| == |multiset(b)| == |b|;
    SortRealsForgetsOrder(a, b);
    SumPermutes(a, b, Identity);
    PercentileForgetsOrder(a, b, MEDIAN_FRACTION);
    PercentileForgetsOrder(a, b, P90_FRACTION);
  }

  /** No observations, no statistics; otherwise the minimum, the median, the ninetieth percentile
      and the maximum come in that order. */
  lemma StatsInOrder(values: seq<real>)
    ensures var d := FromValues(values);
            && d.sampleCount == |values|
            && (values == [] <==> d.mean.None?)
            && (values == [] <==> d.minimum.None?) && (values == [] <==> d.maximum.None?)
            && (values == [] <==> d.median.None?) && (values == [] <==> d.p90.None?)
            && (values != [] ==>
                  && d.minimum.value in values && d.maximum.value in values
                  && (forall v :: v in values ==> d.minimum.value <= v <= d.maximum.value)
                  && d.minimum.value <= d.median.value <= d.p90.value <= d.maximum.value)
  {
    if values != [] {
      PercentileMonotone(values, MEDIAN_FRACTION, P90_FRACTION);
      PercentileMonotone(values, 0.0, MEDIAN_FRACTION);
      PercentileMonotone(values, P90_FRACTION, 1.0);
      PercentileEnds(values);
      SortedExtremes(values);
    }
  }

  // ---- The statistics from the observations ----------------------------------------------------

  /** The value is the one at a rank of ordered observations, counted from 0: an observation at a whole
      rank, and on the straight line between the two next to any other. */
  predicate AtRank(ordered: seq<real>, rank: real, value: real) {
    var k := rank.Floor;
    && 0 <= k < |ordered|
    && if rank == k as real then value == ordered[k]
       else k + 1 < |ordered| && OnLine(ordered[k], ordered[k + 1], rank - k as real, value)
  }

  /** The value lies a share t of the way from low to high. */
  predicate OnLine(low: real, high: real, t: real, value: real) { value == (1.0 - t) * low + t * high }

  /** The statistics are those of the observations. */
  ghost predicate Describes(d: DurationStats, observations: multiset<real>) {
    && d.sampleCount == |observations|
    && (if observations == multiset{} then d == DurationStats(0, None, None, None, None, None)
        else exists ordered: seq<real> :: multiset(ordered) == observations && DescribesOrdered(d, ordered))
  }

  /** The mean times the count is the sum, the extremes are the ends, the median is at half the last rank
      and the ninetieth percentile at nine tenths of it. */
  ghost predicate DescribesOrdered(d: DurationStats, ordered: seq<real>) {
    && ordered != [] && (forall i, j :: 0 <= i < j < |ordered| ==> ordered[i] <= ordered[j])
    && IsMean(d.mean, |ordered|, Sum(ordered, (x: real) => x))
    && d.minimum == Some(ordered[0]) && d.maximum == Some(ordered[|ordered| - 1])
    && IsAtRank(ordered, (|ordered| - 1) as real / 2.0, d.median)
    && IsAtRank(ordered, 9.0 * (|ordered| - 1) as real / 10.0, d.p90)
  }

  predicate IsMean(mean: Option<real>, n: nat, sum: real) { mean.Some? && mean.value * n as real == sum }

  predicate IsAtRank(ordered: seq<real>, rank: real, value: Option<real>) {
    value.Some? && AtRank(ordered, rank, value.value)
  }

  lemma InterpolateAtRank(s: seq<real>, rank: real)
    requires 0.0 <= rank <= (|s| - 1) as real
    ensures AtRank(s, rank, Interpolate(s, rank))
  {
    if rank == rank.Floor as real {
      AtInteger(s, rank.Floor);
    } else {
      InterpolateInside(s, rank, rank.Floor, rank - rank.Floor as real);
    }
  }

  /** There is no percentile of no observations, and a fraction outside 0 to 1 is an error. */
  lemma PercentileErrors(values: seq<real>, fraction: real)
    ensures Percentile(values, fraction) == Err(FractionOutOfRange) <==> fraction < 0.0 || fraction > 1.0
    ensures Percentile(values, fraction) == Ok(None) <==> 0.0 <= fraction <= 1.0 && values == []
  {
  }

  /** Otherwise it is the value at its fraction of the last rank. */
  lemma PercentileIsAtRank(values: seq<real>, fraction: real, rank: real)
    requires values != [] && 0.0 <= fraction <= 1.0 && rank == fraction * (|values| - 1) as real
    ensures Percentile(values, fraction).Ok? && IsAtRank(SortReals(values), rank, Percentile(values, fraction).value)
  {
    PercentileAtRank(values, fraction, rank);
    InterpolateAtRank(SortReals(values), rank);
  }

  lemma MeanOfSum(sum: real, n: nat)
    requires n > 0
    ensures IsMean(SafeRatio(sum, n as real), n, sum)
  {
  }

  lemma SumSame(s: seq<real>)
    ensures Sum(s, Identity) == Sum(s, (x: real) => x)
  {
    SumAgrees(s, Identity, (x: real) => x);
  }

  lemma {:induction false} SumAgrees(s: seq<real>, f: real -> real, g: real -> real)
    requires forall x :: f(x) == g(x)
    ensures Sum(s, f) == Sum(s, g)
  {
    if s != [] {
      SumAgrees(s[..|s| - 1], f, g);
    }
  }

  lemma MeanDescribed(values: seq<real>, ordered: seq<real>)
    requires values != [] && multiset(ordered) == multiset(values)
    ensures IsMean(FromValues(values).mean, |values|, Sum(ordered, (x: real) => x))
  {
    SumPermutes(values, ordered, Identity);
    SumSame(ordered);
    MeanOfSum(Sum(values, Identity), |values|);
  }

  lemma MedianDescribed(values: seq<real>)
    requires values != []
    ensures IsAtRank(SortReals(values), (|values| - 1) as real / 2.0, FromValues(values).median)
  {
    PercentileIsAtRank(values, MEDIAN_FRACTION, (|values| - 1) as real / 2.0);
  }

  lemma P90Described(values: seq<real>)
    requires values != []
    ensures IsAtRank(SortReals(values), 9.0 * (|values| - 1) as real / 10.0, FromValues(values).p90)
  {
    PercentileIsAtRank(values, P90_FRACTION, 9.0 * (|values| - 1) as real / 10.0);
  }

  lemma SortedDescribed(values: seq<real>)
    requires values != []
    ensures DescribesOrdered(FromValues(values), SortReals(values))
  {
    MeanDescribed(values, SortReals(values));
    MedianDescribed(values);
    P90Described(values);
    ExtremesDescribed(values);
  }

  lemma ExtremesDescribed(values: seq<real>)
    requires values != []
    ensures var s, d := SortReals(values), FromValues(values);
            d.minimum == Some(s[0]) && d.maximum == Some(s[|s| - 1])
  {
  }

  /** Every statistic of a list is that of its observations. */
  lemma StatsDescribe(values: seq<real>)
    ensures Describes(FromValues(values), multiset(values))
  {
    if values != [] {
      SortedDescribed(values);
      assert values[0] in multiset(values);
    }
  }
}

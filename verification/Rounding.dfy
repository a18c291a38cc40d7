/**
 Rounding to the nearest multiple of a step, ties to even, as Python's round does. A rounded value
 is its own rounding, and rounding stays within any bounds that are multiples of the step.
 */
module Rounding {

  function RoundHalfEven(y: real): int {
    var low := y.Floor;
    var rest := y - low as real;
    if rest < 0.5 then low
    else if rest > 0.5 then low + 1
    else if low % 2 == 0 then low else low + 1
  }

  /** A number of equal parts of one. */
  function Parts(n: int, parts: real): real
    requires parts > 0.0
  {
    n as real / parts
  }

  /** x rounded to a multiple of one part: ten parts for one decimal. */
  function RoundTo(x: real, parts: real): real
    requires parts > 0.0
  {
    Parts(RoundHalfEven(x * parts), parts)
  }

  lemma IntegersStay(y: real, n: int)
    requires y == n as real
    ensures RoundHalfEven(y) == n
  {
  }

  /** The nearest integer, and of two that are equally near the even one. */
  lemma RoundHalfEvenIff(y: real, n: int)
    ensures RoundHalfEven(y) == n <==> IsNearest(n, y)
  {
    assert y.Floor as real <= y < y.Floor as real + 1.0;
  }

  /** n is the integer nearest to y, the even one of two that are equally near. */
  predicate IsNearest(n: int, y: real) {
    var over := y - n as real;
    -0.5 < over < 0.5 || ((over == 0.5 || over == -0.5) && n % 2 == 0)
  }

  /** A rounded value is the nearest multiple of its part. */
  lemma NearestPart(x: real, parts: real) returns (n: int)
    requires parts > 0.0
    ensures RoundTo(x, parts) * parts == n as real && IsNearest(n, x * parts)
  {
    n := RoundHalfEven(x * parts);
    RoundHalfEvenIff(x * parts, n);
    RoundToIs(x, parts, n);
    PartsScale(n, parts);
  }

  lemma RoundingMonotone(y: real, z: real)
    requires y <= z
    ensures RoundHalfEven(y) <= RoundHalfEven(z)
  {
    assert y.Floor <= z.Floor;
  }

  lemma PartsScale(n: int, parts: real)
    requires parts > 0.0
    ensures Parts(n, parts) * parts == n as real
  {
  }

  lemma RoundParts(n: int, parts: real)
    requires parts > 0.0
    ensures RoundTo(Parts(n, parts), parts) == Parts(n, parts)
  {
    var x := Parts(n, parts);
    PartsScale(n, parts);
    IntegersStay(x * parts, n);
    RoundToIs(x, parts, n);
  }

  lemma RoundToIs(x: real, parts: real, m: int)
    requires parts > 0.0 && RoundHalfEven(x * parts) == m
    ensures RoundTo(x, parts) == Parts(m, parts)
  {
  }

  /** A rounded value is its own rounding. */
  lemma RoundToIdempotent(x: real, parts: real)
    requires parts > 0.0
    ensures RoundTo(RoundTo(x, parts), parts) == RoundTo(x, parts)
  {
    RoundParts(RoundHalfEven(x * parts), parts);
  }

  lemma ScaledBetween(x: real, parts: real, low: int, high: int, scaled: real)
    requires parts > 0.0 && Parts(low, parts) <= x <= Parts(high, parts) && scaled == x * parts
    ensures low as real <= scaled <= high as real
  {
    Scaled(Parts(low, parts), x, parts);
    Scaled(x, Parts(high, parts), parts);
    PartsScale(low, parts);
    PartsScale(high, parts);
  }

  /** Rounding does not leave an interval whose ends need no rounding. */
  lemma RoundToStaysBetween(x: real, parts: real, low: int, high: int)
    requires parts > 0.0 && Parts(low, parts) <= x <= Parts(high, parts)
    ensures Parts(low, parts) <= RoundTo(x, parts) <= Parts(high, parts)
  {
    ScaledBetween(x, parts, low, high, x * parts);
    IntegersStay(low as real, low);
    IntegersStay(high as real, high);
    RoundingMonotone(low as real, x * parts);
    RoundingMonotone(x * parts, high as real);
    PartsRise(low, RoundHalfEven(x * parts), parts);
    PartsRise(RoundHalfEven(x * parts), high, parts);
  }

  lemma PartsRise(m: int, n: int, parts: real)
    requires parts > 0.0 && m <= n
    ensures Parts(m, parts) <= Parts(n, parts)
  {
    Shrunk(m as real, n as real, parts);
  }

  lemma Scaled(a: real, b: real, k: real)
    requires a <= b && k > 0.0
    ensures a * k <= b * k
  {
    assert 0.0 <= (b - a) * k;
  }

  lemma Shrunk(a: real, b: real, k: real)
    requires a <= b && k > 0.0
    ensures a / k <= b / k
  {
    var d := (b - a) / k;
    assert d * k == b - a;
    NonNegative(d, k);
    assert b / k == a / k + d;
  }

  lemma NonNegative(d: real, k: real)
    requires k > 0.0 && d * k >= 0.0
    ensures d >= 0.0
  {
  }
}

/**
 Extremes and products of real numbers. The solver handles products poorly when their factors
 are not plain variables, so the lemmas here return the product that they speak of, and their
 callers compare returned values instead of products.
 */
module Reals {

  function Min(u: real, v: real): real { if u <= v then u else v }

  function Max(u: real, v: real): real { if u <= v then v else u }

  function Least(s: seq<real>): (m: real)
    requires s != []
    ensures m in s && forall x :: x in s ==> m <= x
  {
    if |s| == 1 then s[0]
    else
      assert forall x :: x in s ==> x == s[0] || x in s[1..];
      Min(s[0], Least(s[1..]))
  }

  function Greatest(s: seq<real>): (m: real)
    requires s != []
    ensures m in s && forall x :: x in s ==> x <= m
  {
    if |s| == 1 then s[0]
    else
      assert forall x :: x in s ==> x == s[0] || x in s[1..];
      Max(s[0], Greatest(s[1..]))
  }

  lemma NonNegativeProduct(a: real, b: real) returns (product: real)
    requires a >= 0.0 && b >= 0.0
    ensures product == a * b && product >= 0.0
  {
    product := a * b;
  }

  lemma PositiveProduct(a: real, b: real) returns (product: real)
    requires a > 0.0 && b > 0.0
    ensures product == a * b && product > 0.0
  {
    product := a * b;
  }

  lemma SquareSign(x: real) returns (square: real)
    ensures square == x * x && square >= 0.0
    ensures square == 0.0 ==> x == 0.0
  {
    square := x * x;
    if x > 0.0 {
      var product := PositiveProduct(x, x);
    } else if x < 0.0 {
      var product := PositiveProduct(-x, -x);
      assert square == product;
    }
  }

  lemma Cancel(k: real, u: real, v: real)
    requires k != 0.0 && k * u == k * v
    ensures u == v
  {
    assert k * (u - v) == 0.0;
  }

  /** A share of a non-negative amount. */
  lemma ShareOf(t: real, d: real) returns (p: real)
    requires 0.0 <= t <= 1.0 && d >= 0.0
    ensures p == t * d && 0.0 <= p <= d
  {
    p := NonNegativeProduct(t, d);
    var rest := NonNegativeProduct(1.0 - t, d);
    assert rest == d - p;
  }
}

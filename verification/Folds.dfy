/**
 Sequences mapped, reversed and turned; sums and counts over them, and their independence of order:
 what is counted or added up over a sequence depends on its elements as a multiset alone.
 */
module Folds {

  function Map<A, B>(f: A -> B, s: seq<A>): (r: seq<B>)
    ensures |r| == |s| && forall i :: 0 <= i < |s| ==> r[i] == f(s[i])
  {
    seq(|s|, i requires 0 <= i < |s| => f(s[i]))
  }

  function Reverse<T>(s: seq<T>): (r: seq<T>)
    ensures |r| == |s| && forall i :: 0 <= i < |s| ==> r[i] == s[|s| - 1 - i]
  {
    seq(|s|, i requires 0 <= i < |s| => s[|s| - 1 - i])
  }

  /** The same ring started at corner k. */
  function Rotate<T>(s: seq<T>, k: nat): (r: seq<T>)
    requires k <= |s|
    ensures |r| == |s|
  {
    s[k..] + s[..k]
  }

  function Sum<T>(s: seq<T>, f: T -> real): real {
    if s == [] then 0.0 else Sum(s[..|s| - 1], f) + f(s[|s| - 1])
  }

  function Count<T>(s: seq<T>, p: T -> bool): nat {
    if s == [] then 0 else Count(s[..|s| - 1], p) + if p(s[|s| - 1]) then 1 else 0
  }

  lemma CountSnoc<T>(s: seq<T>, x: T, p: T -> bool)
    ensures Count(s + [x], p) == Count(s, p) + if p(x) then 1 else 0
  {
    assert (s + [x])[..|s|] == s;
  }

  // ---- Sums and counts forget order --------------------------------------------------

  lemma {:induction false} SumConcat<T>(s: seq<T>, t: seq<T>, f: T -> real)
    ensures Sum(s + t, f) == Sum(s, f) + Sum(t, f)
  {
    if t == [] {
      assert s + t == s;
    } else {
      assert (s + t)[..|s + t| - 1] == s + t[..|t| - 1];
      SumConcat(s, t[..|t| - 1], f);
    }
  }

  function Without<T>(s: seq<T>, i: nat): seq<T>
    requires i < |s|
  {
    s[..i] + s[i + 1..]
  }

  lemma SumWithout<T>(s: seq<T>, i: nat, f: T -> real)
    requires i < |s|
    ensures Sum(s, f) == Sum(Without(s, i), f) + f(s[i])
  {
    var front := s[..i + 1];
    SumConcat(front, s[i + 1..], f);
    SumConcat(s[..i], s[i + 1..], f);
    assert s == front + s[i + 1..];
    assert front[..|front| - 1] == s[..i];
  }

  lemma WithoutMultiset<T>(s: seq<T>, i: nat)
    requires i < |s|
    ensures multiset(Without(s, i)) == multiset(s) - multiset{s[i]}
  {
    assert s == s[..i] + [s[i]] + s[i + 1..];
  }

  lemma {:induction false} SumPermutes<T>(s: seq<T>, t: seq<T>, f: T -> real)
    requires multiset(s) == multiset(t)
    ensures Sum(s, f) == Sum(t, f)
  {
    assert |s| == |multiset(s)| == |t|;
    if s != [] {
      var last := |s| - 1;
      assert s[last] in multiset(t);
      var i :| 0 <= i < |t| && t[i] == s[last];
      WithoutMultiset(s, last);
      WithoutMultiset(t, i);
      SumPermutes(Without(s, last), Without(t, i), f);
      SumWithout(s, last, f);
      SumWithout(t, i, f);
    }
  }

  function Indicator<T>(p: T -> bool): T -> real {
    (x: T) => if p(x) then 1.0 else 0.0
  }

  lemma {:induction false} CountIsSum<T>(s: seq<T>, p: T -> bool)
    ensures Count(s, p) as real == Sum(s, Indicator(p))
  {
    if s != [] {
      CountIsSum(s[..|s| - 1], p);
    }
  }

  lemma CountPermutes<T>(s: seq<T>, t: seq<T>, p: T -> bool)
    requires multiset(s) == multiset(t)
    ensures Count(s, p) == Count(t, p)
  {
    CountIsSum(s, p);
    CountIsSum(t, p);
    SumPermutes(s, t, Indicator(p));
  }

  lemma {:induction false} CountMap<A, B>(s: seq<A>, f: A -> B, p: B -> bool, q: A -> bool)
    requires forall x :: x in s ==> p(f(x)) == q(x)
    ensures Count(Map(f, s), p) == Count(s, q)
  {
    if s != [] {
      assert Map(f, s)[..|s| - 1] == Map(f, s[..|s| - 1]);
      CountMap(s[..|s| - 1], f, p, q);
    }
  }

  lemma {:induction false} SumMap<A, B>(s: seq<A>, f: A -> B, g: B -> real, h: A -> real, k: real)
    requires forall x :: x in s ==> g(f(x)) == k * h(x)
    ensures Sum(Map(f, s), g) == k * Sum(s, h)
  {
    if s != [] {
      assert Map(f, s)[..|s| - 1] == Map(f, s[..|s| - 1]);
      SumMap(s[..|s| - 1], f, g, h, k);
    }
  }

  /** An element occurs as often as its image, if no other element has that image. */
  lemma {:induction false} MapCount<A, B>(f: A -> B, s: seq<A>, x: A)
    requires forall y :: f(y) == f(x) <==> y == x
    ensures multiset(Map(f, s))[f(x)] == multiset(s)[x]
  {
    if s != [] {
      var front, last := s[..|s| - 1], s[|s| - 1];
      MapCount(f, front, x);
      MapSnoc(f, s);
      assert s == front + [last];
    }
  }

  lemma MapSnoc<A, B>(f: A -> B, s: seq<A>)
    requires s != []
    ensures Map(f, s) == Map(f, s[..|s| - 1]) + [f(s[|s| - 1])]
  {
  }

  lemma {:induction false} ReverseMultiset<T>(s: seq<T>)
    ensures multiset(Reverse(s)) == multiset(s)
  {
    if s != [] {
      var s' := s[..|s| - 1];
      assert Reverse(s) == [s[|s| - 1]] + Reverse(s');
      assert s == s' + [s[|s| - 1]];
      ReverseMultiset(s');
    }
  }

  lemma RotateMultiset<T>(s: seq<T>, k: nat)
    requires k <= |s|
    ensures multiset(Rotate(s, k)) == multiset(s)
  {
    assert s == s[..k] + s[k..];
  }

  lemma {:induction false} CountPrefix<T>(s: seq<T>, k: nat, p: T -> bool)
    requires k <= |s|
    ensures Count(s[..k], p) <= Count(s, p)
  {
    if k == |s| {
      assert s[..k] == s;
    } else {
      assert s[..|s| - 1][..k] == s[..k];
      CountPrefix(s[..|s| - 1], k, p);
    }
  }
}

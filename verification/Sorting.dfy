/**
 Stable sorting by a total preorder, as an insertion sort. Python's sorted is stable, so on every
 input both give the one stable ordering. When ties are equal the order of the input is forgotten.
 */
module Sorting {
  import opened Folds

  ghost predicate TotalPreorder<T(!new)>(le: (T, T) -> bool) {
    && (forall x, y :: le(x, y) || le(y, x))
    && (forall x, y, z :: le(x, y) && le(y, z) ==> le(x, z))
  }

  ghost predicate SortedBy<T>(s: seq<T>, le: (T, T) -> bool) {
    forall i, j :: 0 <= i < j < |s| ==> le(s[i], s[j])
  }

  /** Elements of s that tie under le are equal. */
  ghost predicate TiesEqual<T>(s: seq<T>, le: (T, T) -> bool) {
    forall i, j :: 0 <= i < |s| && 0 <= j < |s| && le(s[i], s[j]) && le(s[j], s[i]) ==> s[i] == s[j]
  }

  /** Places x before the first element it does not exceed. */
  function Insert<T>(x: T, s: seq<T>, le: (T, T) -> bool): (r: seq<T>)
    ensures multiset(r) == multiset{x} + multiset(s)
  {
    if s == [] then [x]
    else if le(x, s[0]) then [x] + s
    else
      assert s == [s[0]] + s[1..];
      [s[0]] + Insert(x, s[1..], le)
  }

  function Sort<T>(s: seq<T>, le: (T, T) -> bool): (r: seq<T>)
    ensures multiset(r) == multiset(s)
    ensures |r| == |s|
  {
    if s == [] then []
    else
      assert s == [s[0]] + s[1..];
      var r := Insert(s[0], Sort(s[1..], le), le);
      assert |multiset(r)| == |multiset(s)|;
      r
  }

  lemma {:induction false} InsertSorted<T(!new)>(x: T, s: seq<T>, le: (T, T) -> bool)
    requires TotalPreorder(le) && SortedBy(s, le)
    ensures SortedBy(Insert(x, s, le), le)
  {
    if s != [] && !le(x, s[0]) {
      var tail := Insert(x, s[1..], le);
      InsertSorted(x, s[1..], le);
      forall k | 0 <= k < |tail| ensures le(s[0], tail[k]) {
        assert tail[k] in multiset(tail);
        assert tail[k] == x || tail[k] in s[1..];
      }
    }
  }

  lemma {:induction false} SortSorted<T(!new)>(s: seq<T>, le: (T, T) -> bool)
    requires TotalPreorder(le)
    ensures SortedBy(Sort(s, le), le)
  {
    if s != [] {
      SortSorted(s[1..], le);
      InsertSorted(s[0], Sort(s[1..], le), le);
    }
  }

  lemma HeadsTie<T(!new)>(s: seq<T>, t: seq<T>, le: (T, T) -> bool)
    requires TotalPreorder(le) && s != [] && t != []
    requires SortedBy(s, le) && SortedBy(t, le)
    requires t[0] in s && s[0] in t
    ensures le(s[0], t[0]) && le(t[0], s[0])
  {
    var i :| 0 <= i < |s| && s[i] == t[0];
    var j :| 0 <= j < |t| && t[j] == s[0];
    assert le(s[0], s[0]) && le(t[0], t[0]);
  }

  lemma TailMultiset<T>(s: seq<T>)
    requires s != []
    ensures multiset(s[1..]) == multiset(s) - multiset{s[0]}
  {
    assert s == [s[0]] + s[1..];
  }

  /** Two sorted arrangements of the same elements are the same sequence, if ties are equal. */
  lemma {:induction false} SortedUnique<T(!new)>(s: seq<T>, t: seq<T>, le: (T, T) -> bool)
    requires TotalPreorder(le)
    requires SortedBy(s, le) && SortedBy(t, le)
    requires multiset(s) == multiset(t) && TiesEqual(s, le)
    ensures s == t
  {
    assert |s| == |multiset(s)| == |t|;
    if s != [] {
      assert s[0] in multiset(t) && t[0] in multiset(s);
      HeadsTie(s, t, le);
      var i :| 0 <= i < |s| && s[i] == t[0];
      assert s[0] == s[i];
      TailMultiset(s);
      TailMultiset(t);
      SortedUnique(s[1..], t[1..], le);
    }
  }

  lemma TiesCarryOver<T>(s: seq<T>, t: seq<T>, le: (T, T) -> bool)
    requires multiset(s) == multiset(t) && TiesEqual(s, le)
    ensures TiesEqual(t, le)
  {
    forall i, j | 0 <= i < |t| && 0 <= j < |t| && le(t[i], t[j]) && le(t[j], t[i])
      ensures t[i] == t[j]
    {
      assert t[i] in multiset(s) && t[j] in multiset(s);
      var k :| 0 <= k < |s| && s[k] == t[i];
      var m :| 0 <= m < |s| && s[m] == t[j];
    }
  }

  /** Sorting forgets the order of the input, when ties are equal. */
  lemma SortForgetsOrder<T(!new)>(s: seq<T>, t: seq<T>, le: (T, T) -> bool)
    requires TotalPreorder(le)
    requires multiset(s) == multiset(t) && TiesEqual(s, le)
    ensures Sort(s, le) == Sort(t, le)
  {
    SortSorted(s, le);
    SortSorted(t, le);
    TiesCarryOver(s, Sort(s, le), le);
    SortedUnique(Sort(s, le), Sort(t, le), le);
  }

  // ---- Sorting by a key --------------------------------------------------------------------

  lemma MapCons<A, B>(f: A -> B, x: A, s: seq<A>)
    ensures Map(f, [x] + s) == [f(x)] + Map(f, s)
  {
  }

  lemma {:induction false} InsertMap<A(!new), B>(x: A, s: seq<A>, f: A -> B, le: (A, A) -> bool, key: (B, B) -> bool)
    requires forall y, z :: le(y, z) == key(f(y), f(z))
    ensures Map(f, Insert(x, s, le)) == Insert(f(x), Map(f, s), key)
  {
    if s != [] {
      assert s == [s[0]] + s[1..];
      MapCons(f, s[0], s[1..]);
      InsertMap(x, s[1..], f, le, key);
      MapCons(f, s[0], Insert(x, s[1..], le));
      MapCons(f, x, s);
      assert Map(f, s)[1..] == Map(f, s[1..]);
    } else {
      assert Map(f, [x]) == [f(x)];
    }
  }

  /** Sorting by what f shows of the elements, f may as well be applied first. */
  lemma {:induction false} SortMap<A(!new), B>(s: seq<A>, f: A -> B, le: (A, A) -> bool, key: (B, B) -> bool)
    requires forall y, z :: le(y, z) == key(f(y), f(z))
    ensures Map(f, Sort(s, le)) == Sort(Map(f, s), key)
  {
    if s != [] {
      assert Map(f, s)[1..] == Map(f, s[1..]);
      SortMap(s[1..], f, le, key);
      InsertMap(s[0], Sort(s[1..], le), f, le, key);
    }
  }

  // ---- Real numbers ------------------------------------------------------------------

  predicate RealLe(x: real, y: real) { x <= y }

  function SortReals(s: seq<real>): (r: seq<real>)
    ensures multiset(r) == multiset(s) && |r| == |s|
    ensures forall i, j :: 0 <= i < j < |r| ==> r[i] <= r[j]
  {
    SortSorted(s, RealLe);
    Sort(s, RealLe)
  }

  lemma SortRealsForgetsOrder(s: seq<real>, t: seq<real>)
    requires multiset(s) == multiset(t)
    ensures SortReals(s) == SortReals(t)
  {
    SortForgetsOrder(s, t, RealLe);
  }
}

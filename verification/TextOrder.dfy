/**
 Strings in the order of Python's sorted, which compares code points, and the keys of a dict in
 that order: whatever order a set of keys is visited in, sorting gives one and the same list.
 */
module TextOrder {
  import opened Sorting

  /** Comparison by code points. */
  predicate TextLe(s: string, t: string) {
    if s == "" then true
    else if t == "" then false
    else s[0] < t[0] || (s[0] == t[0] && TextLe(s[1..], t[1..]))
  }

  lemma {:induction false} TextLeTotal(s: string, t: string)
    ensures TextLe(s, t) || TextLe(t, s)
    ensures TextLe(s, t) && TextLe(t, s) ==> s == t
  {
    if s != "" && t != "" && s[0] == t[0] {
      TextLeTotal(s[1..], t[1..]);
      assert s == [s[0]] + s[1..] && t == [t[0]] + t[1..];
    }
  }

  lemma {:induction false} TextLeTransitive(s: string, t: string, u: string)
    requires TextLe(s, t) && TextLe(t, u)
    ensures TextLe(s, u)
  {
    if s != "" && t != "" && u != "" && s[0] == t[0] == u[0] {
      TextLeTransitive(s[1..], t[1..], u[1..]);
    }
  }

  lemma TextLeOrders()
    ensures TotalPreorder(TextLe)
  {
    forall s, t ensures TextLe(s, t) || TextLe(t, s) {
      TextLeTotal(s, t);
    }
    forall s, t, u | TextLe(s, t) && TextLe(t, u) ensures TextLe(s, u) {
      TextLeTransitive(s, t, u);
    }
  }

  /** The texts differ first at k, where the one has the lesser code point. */
  predicate LessAt(s: string, t: string, k: nat) { k < |s| && k < |t| && s[..k] == t[..k] && s[k] < t[k] }

  lemma LessLater(s: string, t: string, k: nat)
    requires s != "" && t != "" && s[0] == t[0]
    ensures LessAt(s, t, k + 1) <==> LessAt(s[1..], t[1..], k)
  {
    if k < |s| - 1 && k < |t| - 1 {
      assert s[..k + 1] == [s[0]] + s[1..][..k] && t[..k + 1] == [t[0]] + t[1..][..k];
    }
  }

  lemma LessThere(s: string, t: string, k: nat)
    requires s != "" && t != "" && LessAt(s, t, k)
    ensures if k == 0 then s[0] < t[0] else s[0] == t[0]
  {
    assert k > 0 ==> s[..k][0] == s[0] && t[..k][0] == t[0];
  }

  lemma PrefixCons(s: string, t: string)
    requires s != "" && t != ""
    ensures s <= t <==> s[0] == t[0] && s[1..] <= t[1..]
  {
    assert s == [s[0]] + s[1..] && t == [t[0]] + t[1..];
  }

  /** One text comes before another when it begins the other, or has the lesser code point at the first place
      where they differ. */
  lemma {:induction false} TextLeIff(s: string, t: string)
    ensures TextLe(s, t) <==> s <= t || exists k: nat :: LessAt(s, t, k)
  {
    if s != "" && t != "" {
      TextLeIff(s[1..], t[1..]);
      PrefixCons(s, t);
      if TextLe(s, t) {
        BeforeShows(s, t);
      }
      if exists k: nat :: LessAt(s, t, k) {
        var k: nat :| LessAt(s, t, k);
        LessThere(s, t, k);
        if k > 0 {
          LessLater(s, t, k - 1);
        }
      }
    }
  }

  lemma BeforeShows(s: string, t: string)
    requires s != "" && t != "" && TextLe(s, t)
    requires s[0] == t[0] ==> s[1..] <= t[1..] || exists k: nat :: LessAt(s[1..], t[1..], k)
    ensures s <= t || exists k: nat :: LessAt(s, t, k)
  {
    PrefixCons(s, t);
    if s[0] < t[0] {
      assert LessAt(s, t, 0);
    } else if !(s[1..] <= t[1..]) {
      var k: nat :| LessAt(s[1..], t[1..], k);
      LessLater(s, t, k);
    }
  }

  // ---- Sorted keys -------------------------------------------------------------------------

  ghost function Elements(keys: set<string>): (r: seq<string>)
    ensures multiset(r) == multiset(keys)
  {
    if keys == {} then []
    else
      var k :| k in keys;
      var rest := keys - {k};
      assert keys == {k} + rest;
      [k] + Elements(rest)
  }

  /** The keys of a dict in order. */
  ghost function InOrder(keys: set<string>): (r: seq<string>)
    ensures multiset(r) == multiset(keys)
    ensures forall k :: k in r <==> k in keys
  {
    var r := Sort(Elements(keys), TextLe);
    assert forall k :: k in r <==> k in multiset(r);
    r
  }

  lemma InOrderOnce(keys: set<string>)
    ensures forall i, j :: 0 <= i < j < |InOrder(keys)| ==> InOrder(keys)[i] != InOrder(keys)[j]
  {
    var r := InOrder(keys);
    forall i, j | 0 <= i < j < |r| ensures r[i] != r[j] {
      if r[i] == r[j] {
        Twice(r, i, j);
      }
    }
  }

  lemma Twice(r: seq<string>, i: nat, j: nat)
    requires i < j < |r| && r[i] == r[j]
    ensures multiset(r)[r[i]] >= 2
  {
    assert r == r[..i] + [r[i]] + r[i + 1..j] + [r[j]] + r[j + 1..];
  }

  lemma InOrderSorted(keys: set<string>)
    ensures SortedBy(InOrder(keys), TextLe)
  {
    TextLeOrders();
    SortSorted(Elements(keys), TextLe);
  }

  method SortedKeys(keys: set<string>) returns (r: seq<string>)
    ensures r == InOrder(keys)
  {
    var listed: seq<string> := [];
    var left := keys;
    while left != {}
      invariant left <= keys
      invariant multiset(listed) + multiset(left) == multiset(keys)
    {
      var k :| k in left;
      listed := listed + [k];
      left := left - {k};
    }
    TextLeOrders();
    forall i, j | 0 <= i < |listed| && 0 <= j < |listed| && TextLe(listed[i], listed[j]) && TextLe(listed[j], listed[i])
      ensures listed[i] == listed[j]
    {
      TextLeTotal(listed[i], listed[j]);
    }
    SortForgetsOrder(listed, Elements(keys), TextLe);
    r := Sort(listed, TextLe);
  }
}

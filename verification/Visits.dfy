/** Requests served one after the other, with their readings of the clock. */
module Visits {
  /** One request: its token and its readings of the clock for the idle check, the recency check
      and the stamp. */
  datatype Visit<Token> = Visit(token: Token, checkedAt: real, recencyAt: real, stampedAt: real)

  /** The visits come one after the other, each with its readings in order. */
  predicate Ordered<T>(visits: seq<Visit<T>>) {
    && (forall i :: 0 <= i < |visits| ==> visits[i].checkedAt <= visits[i].recencyAt <= visits[i].stampedAt)
    && (forall i, j :: 0 <= i < j < |visits| ==> visits[i].stampedAt <= visits[j].checkedAt)
  }

  lemma FrontInOrder<T>(front: seq<Visit<T>>, v: Visit<T>)
    requires Ordered(front + [v])
    ensures Ordered(front) && v.checkedAt <= v.recencyAt <= v.stampedAt
    ensures front != [] ==> front[|front| - 1].stampedAt <= v.checkedAt
  {
    var visits := front + [v];
    assert forall i :: 0 <= i < |front| ==> visits[i] == front[i];
    assert visits[|front|] == v;
  }

  lemma InOrder<T>(front: seq<Visit<T>>, v: Visit<T>, earlier: Visit<T>)
    requires Ordered(front + [v]) && earlier in front
    ensures earlier.stampedAt <= v.checkedAt
  {
    var visits := front + [v];
    var i :| 0 <= i < |front| && front[i] == earlier;
    assert visits[i] == earlier && visits[|front|] == v;
  }

  /** The stored stamp is of this visit or was less than a minute old when the visit left it alone. */
  predicate Lags<T>(seen: real, last: Visit<T>) {
    last.recencyAt - 60.0 < seen <= last.stampedAt
  }
}

/** The simple meaning of a transactional outbox: a stack of scopes. */
module Scopes {
  // The outermost transaction is at the bottom, with one scope for every open savepoint above it. What
  // publishes an event is that its scope and every scope around it committed.

  /** What an application does with its session. Level 1 is the outermost open savepoint; ending
      a savepoint ends the ones inside it in the same way. */
  datatype Op<+E> =
    | Enqueue(event: E)
    | Begin
    | Release(level: nat)
    | RollBackTo(level: nat)
    | Commit
    | RollBack

  datatype Ledger<+E> = Ledger(scopes: seq<seq<E>>, published: seq<E>)

  function Flatten<E>(scopes: seq<seq<E>>): seq<E> {
    if scopes == [] then [] else scopes[0] + Flatten(scopes[1..])
  }

  /** The operation ends only savepoints that are open. */
  predicate Allowed<E>(op: Op<E>, depth: nat) {
    match op
    case Release(level) => 1 <= level < depth
    case RollBackTo(level) => 1 <= level < depth
    case _ => true
  }

  function Apply<E>(op: Op<E>, l: Ledger<E>): (r: Ledger<E>)
    requires l.scopes != [] && Allowed(op, |l.scopes|)
    ensures r.scopes != []
  {
    var top := |l.scopes| - 1;
    match op
    case Enqueue(e) => l.(scopes := l.scopes[..top] + [l.scopes[top] + [e]])
    case Begin => l.(scopes := l.scopes + [[]])
    case Release(k) => l.(scopes := l.scopes[..k - 1] + [Flatten(l.scopes[k - 1..])])
    case RollBackTo(k) => l.(scopes := l.scopes[..k])
    case Commit => Ledger([[]], l.published + Flatten(l.scopes))
    case RollBack => l.(scopes := [[]])
  }

  // ---- Runs and their scopes -----------------------------------------------------------

  /** The scopes open after a run, outermost first. A scope is named by the number of operations
      that precede its first moment, so names grow from the bottom of the stack to the top. */
  function Open<E>(ops: seq<Op<E>>): (open: seq<nat>)
    requires WellFormed(ops)
    ensures open != []
    ensures forall i, j :: 0 <= i < j < |open| ==> open[i] < open[j]
    ensures forall i :: 0 <= i < |open| ==> open[i] <= |ops|
    decreases |ops|, 1
  {
    if ops == [] then [0]
    else
      var before := Open(ops[..|ops| - 1]);
      match ops[|ops| - 1]
      case Enqueue(_) => before
      case Begin => before + [|ops|]
      case Release(k) => before[..k]
      case RollBackTo(k) => before[..k]
      case Commit => [|ops|]
      case RollBack => [|ops|]
  }

  predicate WellFormed<E>(ops: seq<Op<E>>)
    decreases |ops|, 0
  {
    ops == [] || (WellFormed(ops[..|ops| - 1]) && Allowed(ops[|ops| - 1], |Open(ops[..|ops| - 1])|))
  }

  function Run<E>(ops: seq<Op<E>>): (l: Ledger<E>)
    requires WellFormed(ops)
    ensures |l.scopes| == |Open(ops)|
  {
    if ops == [] then Ledger([[]], [])
    else Apply(ops[|ops| - 1], Run(ops[..|ops| - 1]))
  }

  datatype Outcome = StillOpen | Committed | RolledBack

  /** How scope s ended, if it did; a number that names no scope counts as rolled back. */
  function OutcomeOf<E>(ops: seq<Op<E>>, s: nat): (o: Outcome)
    requires WellFormed(ops)
    ensures o.StillOpen? <==> s in Open(ops)
    decreases |ops|
  {
    if s in Open(ops) then StillOpen
    else if ops == [] then RolledBack
    else
      var front, last := ops[..|ops| - 1], ops[|ops| - 1];
      if s !in Open(front) then OutcomeOf(front, s)
      else if last.RollBackTo? || last.RollBack? then RolledBack
      else Committed
  }

  /** A savepoint's scope, as opposed to an outermost transaction's. */
  predicate Nested<E>(ops: seq<Op<E>>, s: nat) { 0 < s <= |ops| && ops[s - 1].Begin? }

  lemma {:induction false} WellFormedPrefix<E>(ops: seq<Op<E>>, n: nat)
    requires WellFormed(ops) && n <= |ops|
    ensures WellFormed(ops[..n])
  {
    if n < |ops| {
      WellFormedPrefix(ops[..|ops| - 1], n);
      assert ops[..|ops| - 1][..n] == ops[..n];
    } else {
      assert ops[..n] == ops;
    }
  }

  /** The scope that was innermost after the first n operations. */
  function TopAfter<E>(ops: seq<Op<E>>, n: nat): (s: nat)
    requires WellFormed(ops) && n <= |ops|
    ensures s <= n
  {
    WellFormedPrefix(ops, n);
    var open := Open(ops[..n]);
    open[|open| - 1]
  }

  /** The scope and every scope around it committed. */
  predicate ChainCommitted<E>(ops: seq<Op<E>>, s: nat)
    requires WellFormed(ops)
    decreases s
  {
    && OutcomeOf(ops, s).Committed?
    && (Nested(ops, s) ==> ChainCommitted(ops, TopAfter(ops, s - 1)))
  }

  /** The events enqueued by the first n operations of a run whose whole chain of scopes committed,
      in the order in which they were enqueued. */
  function Surviving<E>(ops: seq<Op<E>>, n: nat): seq<E>
    requires WellFormed(ops) && n <= |ops|
  {
    if n == 0 then []
    else
      var before := Surviving(ops, n - 1);
      if ops[n - 1].Enqueue? && ChainCommitted(ops, TopAfter(ops, n - 1)) then before + [ops[n - 1].event]
      else before
  }

  // ---- Where an event stands -----------------------------------------------------------

  datatype Standing = Live(scope: nat) | Discarded | Out

  /** Follows committed scopes outwards to the first that is open or was rolled back. */
  function StandingOf<E>(ops: seq<Op<E>>, s: nat): (st: Standing)
    requires WellFormed(ops)
    ensures st.Live? ==> st.scope <= s
    decreases s
  {
    match OutcomeOf(ops, s)
    case StillOpen => Live(s)
    case RolledBack => Discarded
    case Committed => if Nested(ops, s) then StandingOf(ops, TopAfter(ops, s - 1)) else Out
  }

  lemma {:induction false} OutIffChainCommitted<E>(ops: seq<Op<E>>, s: nat)
    requires WellFormed(ops)
    ensures StandingOf(ops, s).Out? <==> ChainCommitted(ops, s)
    decreases s
  {
    if Nested(ops, s) {
      OutIffChainCommitted(ops, TopAfter(ops, s - 1));
    }
  }

  lemma TopStable<E>(ops: seq<Op<E>>, n: nat)
    requires WellFormed(ops) && n < |ops|
    ensures WellFormed(ops[..|ops| - 1])
    ensures TopAfter(ops, n) == TopAfter(ops[..|ops| - 1], n)
  {
    assert ops[..|ops| - 1][..n] == ops[..n];
  }

  /** The parent of an open scope is the one below it on the stack. */
  lemma {:induction false} ParentBelow<E>(ops: seq<Op<E>>, k: nat)
    requires WellFormed(ops) && k < |Open(ops)|
    ensures var s := Open(ops)[k];
            if k == 0 then !Nested(ops, s) else Nested(ops, s) && TopAfter(ops, s - 1) == Open(ops)[k - 1]
    decreases |ops|
  {
    var s := Open(ops)[k];
    if ops != [] {
      var front := ops[..|ops| - 1];
      if s < |ops| {
        OlderOpen(ops, k);
        ParentBelow(front, k);
        if k > 0 {
          TopStable(ops, s - 1);
        }
      } else if k > 0 {
        assert ops[..s - 1] == front;
      }
    }
  }

  /** A scope older than the last operation was open before it, at the same level. */
  lemma OlderOpen<E>(ops: seq<Op<E>>, k: nat)
    requires WellFormed(ops) && ops != [] && k < |Open(ops)| && Open(ops)[k] < |ops|
    ensures (k < |Open(ops[..|ops| - 1])|) && Open(ops[..|ops| - 1])[k] == Open(ops)[k]
    ensures k > 0 ==> Open(ops)[k - 1] == Open(ops[..|ops| - 1])[k - 1]
  {
  }

  /** Where the operation leaves an event that was live at level j of the open scopes. */
  function Moved<E>(op: Op<E>, open: seq<nat>, j: nat): Standing
    requires j < |open| && Allowed(op, |open|)
  {
    match op
    case Enqueue(_) => Live(open[j])
    case Begin => Live(open[j])
    case Release(k) => Live(if j < k then open[j] else open[k - 1])
    case RollBackTo(k) => if j < k then Live(open[j]) else Discarded
    case Commit => Out
    case RollBack => Discarded
  }

  /** How many of the open scopes the operation leaves open. */
  function Kept<E>(op: Op<E>, depth: nat): nat {
    match op
    case Release(k) => k
    case RollBackTo(k) => k
    case Commit => 0
    case RollBack => 0
    case _ => depth
  }

  lemma StaysOpen<E>(ops: seq<Op<E>>, j: nat)
    requires WellFormed(ops) && ops != []
    requires j < |Open(ops[..|ops| - 1])| && j < Kept(ops[|ops| - 1], |Open(ops[..|ops| - 1])|)
    ensures j < |Open(ops)| && Open(ops)[j] == Open(ops[..|ops| - 1])[j]
  {
  }

  lemma Closes<E>(ops: seq<Op<E>>, j: nat)
    requires WellFormed(ops) && ops != []
    requires Kept(ops[|ops| - 1], |Open(ops[..|ops| - 1])|) <= j < |Open(ops[..|ops| - 1])|
    ensures OutcomeOf(ops, Open(ops[..|ops| - 1])[j])
         == if ops[|ops| - 1].RollBackTo? || ops[|ops| - 1].RollBack? then RolledBack else Committed
  {
    var open := Open(ops[..|ops| - 1]);
    assert forall i :: 0 <= i < j ==> open[i] < open[j];
    assert open[j] !in Open(ops);
  }

  lemma ParentStays<E>(ops: seq<Op<E>>, j: nat)
    requires WellFormed(ops) && ops != [] && j < |Open(ops[..|ops| - 1])|
    ensures var open := Open(ops[..|ops| - 1]);
            if j == 0 then !Nested(ops, open[0]) else Nested(ops, open[j]) && TopAfter(ops, open[j] - 1) == open[j - 1]
  {
    var front := ops[..|ops| - 1];
    ParentBelow(front, j);
    if j > 0 {
      TopStable(ops, Open(front)[j] - 1);
    }
  }

  /** The last operation moves the live events of every open scope as Moved says. */
  lemma {:induction false} LiveStep<E>(ops: seq<Op<E>>, j: nat)
    requires WellFormed(ops) && ops != []
    requires j < |Open(ops[..|ops| - 1])|
    ensures StandingOf(ops, Open(ops[..|ops| - 1])[j]) == Moved(ops[|ops| - 1], Open(ops[..|ops| - 1]), j)
    decreases j
  {
    var front, last := ops[..|ops| - 1], ops[|ops| - 1];
    var open := Open(front);
    MovedAs(last, open, j);
    if j < Kept(last, |open|) {
      StaysLive(ops, j);
    } else if last.Release? || last.Commit? {
      if j > 0 {
        LiveStep(ops, j - 1);
      }
      PassesUp(ops, j);
    } else {
      Dies(ops, j);
    }
  }

  lemma MovedAs<E>(op: Op<E>, open: seq<nat>, j: nat)
    requires j < |open| && Allowed(op, |open|)
    ensures j < Kept(op, |open|) ==> Moved(op, open, j) == Live(open[j])
    ensures j >= Kept(op, |open|) ==>
              Moved(op, open, j)
              == if op.RollBackTo? || op.RollBack? then Discarded else if j == 0 then Out else Moved(op, open, j - 1)
  {
  }

  lemma StaysLive<E>(ops: seq<Op<E>>, j: nat)
    requires WellFormed(ops) && ops != []
    requires j < |Open(ops[..|ops| - 1])| && j < Kept(ops[|ops| - 1], |Open(ops[..|ops| - 1])|)
    ensures StandingOf(ops, Open(ops[..|ops| - 1])[j]) == Live(Open(ops[..|ops| - 1])[j])
  {
    StaysOpen(ops, j);
  }

  lemma Dies<E>(ops: seq<Op<E>>, j: nat)
    requires WellFormed(ops) && ops != [] && (ops[|ops| - 1].RollBackTo? || ops[|ops| - 1].RollBack?)
    requires Kept(ops[|ops| - 1], |Open(ops[..|ops| - 1])|) <= j < |Open(ops[..|ops| - 1])|
    ensures StandingOf(ops, Open(ops[..|ops| - 1])[j]) == Discarded
  {
    Closes(ops, j);
  }

  /** The events of a committed scope go where those of the scope around it go. */
  lemma PassesUp<E>(ops: seq<Op<E>>, j: nat)
    requires WellFormed(ops) && ops != [] && (ops[|ops| - 1].Release? || ops[|ops| - 1].Commit?)
    requires Kept(ops[|ops| - 1], |Open(ops[..|ops| - 1])|) <= j < |Open(ops[..|ops| - 1])|
    ensures var open := Open(ops[..|ops| - 1]);
            StandingOf(ops, open[j]) == if j == 0 then Out else StandingOf(ops, open[j - 1])
  {
    Closes(ops, j);
    ParentStays(ops, j);
  }

  lemma {:induction false} LiveIsOpen<E>(ops: seq<Op<E>>, s: nat)
    requires WellFormed(ops)
    ensures StandingOf(ops, s).Live? ==> StandingOf(ops, s).scope in Open(ops)
    decreases s
  {
    if Nested(ops, s) {
      LiveIsOpen(ops, TopAfter(ops, s - 1));
    }
  }

  /** Events live in scope t go where scope t goes; the others have settled. */
  function Settle<E>(ops: seq<Op<E>>, st: Standing): Standing
    requires WellFormed(ops)
  {
    if st.Live? then StandingOf(ops, st.scope) else st
  }

  lemma ClosedBefore<E>(ops: seq<Op<E>>, s: nat)
    requires WellFormed(ops) && ops != [] && s < |ops|
    requires s !in Open(ops[..|ops| - 1])
    ensures OutcomeOf(ops, s) == OutcomeOf(ops[..|ops| - 1], s)
  {
    assert s !in Open(ops);
  }

  /** Where every scope's events stand after one more operation. */
  lemma {:induction false} StandingStep<E>(ops: seq<Op<E>>, s: nat)
    requires WellFormed(ops) && ops != [] && s < |ops|
    ensures StandingOf(ops, s) == Settle(ops, StandingOf(ops[..|ops| - 1], s))
    decreases s
  {
    if s !in Open(ops[..|ops| - 1]) {
      ClosedBefore(ops, s);
      if Nested(ops, s) {
        TopStable(ops, s - 1);
        StandingStep(ops, TopAfter(ops, s - 1));
      }
    }
  }

  // ---- Runs publish exactly the surviving events ---------------------------------------

  /** Where the event enqueued by operation i stands. */
  function StandingAt<E>(ops: seq<Op<E>>, i: nat): (st: Standing)
    requires WellFormed(ops) && i < |ops|
    ensures st.Live? ==> st.scope <= i
  {
    StandingOf(ops, TopAfter(ops, i))
  }

  predicate IsLive(st: Standing) { st.Live? }

  predicate IsOut(st: Standing) { st.Out? }

  /** The events of operations m to n whose standing is wanted, in order. */
  function Select<E>(ops: seq<Op<E>>, m: nat, n: nat, want: Standing -> bool): seq<E>
    requires WellFormed(ops) && m <= n <= |ops|
  {
    if m == n then []
    else
      Select(ops, m, n - 1, want) + Last(ops, n - 1, want)
  }

  /** The event of operation n, if it is wanted. */
  function Last<E>(ops: seq<Op<E>>, n: nat, want: Standing -> bool): seq<E>
    requires WellFormed(ops) && n < |ops|
  {
    if ops[n].Enqueue? && want(StandingAt(ops, n)) then [ops[n].event] else []
  }

  lemma {:induction false} SelectSplit<E>(ops: seq<Op<E>>, a: nat, b: nat, c: nat, want: Standing -> bool)
    requires WellFormed(ops) && a <= b <= c <= |ops|
    ensures Select(ops, a, c, want) == Select(ops, a, b, want) + Select(ops, b, c, want)
  {
    if b < c {
      SelectSplit(ops, a, b, c - 1, want);
      SelectSplitLast(ops, a, b, c, want);
    }
  }

  lemma SelectSplitLast<E>(ops: seq<Op<E>>, a: nat, b: nat, c: nat, want: Standing -> bool)
    requires WellFormed(ops) && a <= b < c <= |ops|
    requires Select(ops, a, c - 1, want) == Select(ops, a, b, want) + Select(ops, b, c - 1, want)
    ensures Select(ops, a, c, want) == Select(ops, a, b, want) + Select(ops, b, c, want)
  {
    SelectLast(ops, a, c, want);
    SelectLast(ops, b, c, want);
    Regroup(Select(ops, a, b, want), Select(ops, b, c - 1, want), Last(ops, c - 1, want));
  }

  lemma Regroup<E>(a: seq<E>, b: seq<E>, c: seq<E>)
    ensures (a + b) + c == a + (b + c)
  {
  }

  lemma SelectLast<E>(ops: seq<Op<E>>, m: nat, n: nat, want: Standing -> bool)
    requires WellFormed(ops) && m < n <= |ops|
    ensures Select(ops, m, n, want) == Select(ops, m, n - 1, want) + Last(ops, n - 1, want)
  {
  }

  lemma {:induction false} SelectNone<E>(ops: seq<Op<E>>, m: nat, n: nat, want: Standing -> bool)
    requires WellFormed(ops) && m <= n <= |ops|
    requires forall i :: m <= i < n ==> !want(StandingAt(ops, i))
    ensures Select(ops, m, n, want) == []
  {
    if m < n {
      SelectNone(ops, m, n - 1, want);
      SelectSkips(ops, m, n, want);
    }
  }

  lemma SelectSkips<E>(ops: seq<Op<E>>, m: nat, n: nat, want: Standing -> bool)
    requires WellFormed(ops) && m < n <= |ops| && !want(StandingAt(ops, n - 1))
    ensures Select(ops, m, n, want) == Select(ops, m, n - 1, want)
  {
    SelectLast(ops, m, n, want);
  }

  /** One more operation selects the same events, if each one's standing is wanted as before. */
  lemma {:induction false} SelectSame<E>(ops: seq<Op<E>>, m: nat, n: nat, want: Standing -> bool,
                                         before: Standing -> bool)
    requires WellFormed(ops) && ops != [] && m <= n < |ops|
    requires forall i :: m <= i < n ==> want(StandingAt(ops, i)) == before(StandingAt(ops[..|ops| - 1], i))
    ensures Select(ops, m, n, want) == Select(ops[..|ops| - 1], m, n, before)
  {
    if m < n {
      assert want(StandingAt(ops, n - 1)) == before(StandingAt(ops[..|ops| - 1], n - 1));
      SelectSame(ops, m, n - 1, want, before);
    }
  }

  lemma {:induction false} SurvivingIsOut<E>(ops: seq<Op<E>>, n: nat)
    requires WellFormed(ops) && n <= |ops|
    ensures Surviving(ops, n) == Select(ops, 0, n, IsOut)
  {
    if n > 0 {
      SurvivingIsOut(ops, n - 1);
      OutIffChainCommitted(ops, TopAfter(ops, n - 1));
    }
  }

  /** An open scope was open ever since it began. */
  lemma {:induction false} OpenThroughout<E>(ops: seq<Op<E>>, o: nat, n: nat)
    requires WellFormed(ops) && o in Open(ops) && o <= n <= |ops|
    ensures WellFormed(ops[..n]) && o in Open(ops[..n])
  {
    if n == |ops| {
      assert ops[..n] == ops;
    } else {
      var front := ops[..|ops| - 1];
      OpenThroughout(front, o, n);
      assert front[..n] == ops[..n];
    }
  }

  lemma TopIsGreatest<E>(ops: seq<Op<E>>, i: nat, o: nat)
    requires WellFormed(ops) && i <= |ops| && WellFormed(ops[..i]) && o in Open(ops[..i])
    ensures o <= TopAfter(ops, i)
  {
    LastIsGreatest(Open(ops[..i]), o);
  }

  lemma LastIsGreatest(open: seq<nat>, o: nat)
    requires o in open && forall i, j :: 0 <= i < j < |open| ==> open[i] < open[j]
    ensures o <= open[|open| - 1]
  {
    var i :| 0 <= i < |open| && open[i] == o;
    assert i == |open| - 1 || open[i] < open[|open| - 1];
  }

  lemma YoungestIsTop<E>(ops: seq<Op<E>>)
    requires WellFormed(ops) && ops != [] && |ops| in Open(ops)
    ensures ops[|ops| - 1].Begin? || Open(ops) == [|ops|]
  {
  }

  /** While scope o is open, no other outermost transaction begins. */
  lemma LaterScopesNest<E>(ops: seq<Op<E>>, o: nat, s: nat)
    requires WellFormed(ops) && o in Open(ops) && o < s <= |ops|
    requires WellFormed(ops[..s]) && s in Open(ops[..s])
    ensures Nested(ops, s) && o <= TopAfter(ops, s - 1)
  {
    OpenThroughout(ops, o, s);
    YoungestIsTop(ops[..s]);
    OpenThroughout(ops, o, s - 1);
  }

  /** Events of scopes begun while o was open stay inside o as long as it is open. */
  lemma {:induction false} StaysInside<E>(ops: seq<Op<E>>, o: nat, s: nat)
    requires WellFormed(ops) && o in Open(ops) && o <= s <= |ops|
    requires WellFormed(ops[..s]) && s in Open(ops[..s])
    ensures StandingOf(ops, s).Discarded? || (StandingOf(ops, s).Live? && o <= StandingOf(ops, s).scope)
    decreases s
  {
    if o < s {
      ParentInside(ops, o, s);
      StaysInside(ops, o, TopAfter(ops, s - 1));
    }
  }

  /** A scope begun while another is open was begun right inside a scope that lies inside that one. */
  lemma ParentInside<E>(ops: seq<Op<E>>, o: nat, s: nat)
    requires WellFormed(ops) && o in Open(ops) && o < s <= |ops|
    requires WellFormed(ops[..s]) && s in Open(ops[..s])
    ensures Nested(ops, s)
    ensures var parent := TopAfter(ops, s - 1);
            o <= parent < s && WellFormed(ops[..parent]) && parent in Open(ops[..parent])
  {
    LaterScopesNest(ops, o, s);
    WellFormedPrefix(ops, s - 1);
    OpenAtBirth(ops, s - 1, TopAfter(ops, s - 1));
  }

  lemma OpenAtBirth<E>(ops: seq<Op<E>>, n: nat, s: nat)
    requires n <= |ops| && WellFormed(ops[..n]) && s in Open(ops[..n])
    ensures s <= n && WellFormed(ops[..s]) && s in Open(ops[..s])
  {
    OpenThroughout(ops[..n], s, s);
    assert ops[..n][..s] == ops[..s];
  }

  lemma {:induction false} EventStaysInside<E>(ops: seq<Op<E>>, o: nat, i: nat)
    requires WellFormed(ops) && o in Open(ops) && o <= i < |ops|
    ensures StandingAt(ops, i).Discarded? || (StandingAt(ops, i).Live? && o <= StandingAt(ops, i).scope)
  {
    var s := TopAfter(ops, i);
    TopWasOpen(ops, i);
    OpenThroughout(ops, o, i);
    TopIsGreatest(ops, i, o);
    StaysInside(ops, o, s);
  }

  lemma TopWasOpen<E>(ops: seq<Op<E>>, i: nat)
    requires WellFormed(ops) && i <= |ops|
    ensures var s := TopAfter(ops, i);
            WellFormed(ops[..s]) && s in Open(ops[..s])
  {
    WellFormedPrefix(ops, i);
    var s := TopAfter(ops, i);
    OpenThroughout(ops[..i], s, s);
    assert ops[..i][..s] == ops[..s];
  }

  lemma SettledStays<E>(ops: seq<Op<E>>, i: nat)
    requires WellFormed(ops) && ops != [] && i < |ops| - 1
    ensures StandingAt(ops, i) == Settle(ops, StandingAt(ops[..|ops| - 1], i))
  {
    TopStable(ops, i);
    StandingStep(ops, TopAfter(ops, i));
  }

  /** One more operation moves an event that was live at some level as that level moves. */
  lemma LiveMoves<E>(ops: seq<Op<E>>, i: nat) returns (j: nat)
    requires WellFormed(ops) && ops != [] && i < |ops| - 1
    requires StandingAt(ops[..|ops| - 1], i).Live?
    ensures j < |Open(ops[..|ops| - 1])| && Open(ops[..|ops| - 1])[j] == StandingAt(ops[..|ops| - 1], i).scope
    ensures StandingAt(ops, i) == Moved(ops[|ops| - 1], Open(ops[..|ops| - 1]), j)
  {
    var front := ops[..|ops| - 1];
    LiveIsOpen(front, TopAfter(front, i));
    j :| 0 <= j < |Open(front)| && Open(front)[j] == StandingAt(front, i).scope;
    LiveStep(ops, j);
    SettledStays(ops, i);
  }

  /** An event standing as st before an operation may stand as now after it. */
  predicate MovesTo<E>(op: Op<E>, open: seq<nat>, st: Standing, now: Standing)
    requires Allowed(op, |open|)
  {
    if !st.Live? then now == st
    else
      match op
      case Commit => now.Out?
      case RollBack => now.Discarded?
      case RollBackTo(k) => if st.scope < open[k] then now.Live? else now.Discarded?
      case _ => now.Live?
  }

  lemma MovedMovesTo<E>(op: Op<E>, open: seq<nat>, j: nat)
    requires j < |open| && Allowed(op, |open|)
    requires forall i, k :: 0 <= i < k < |open| ==> open[i] < open[k]
    ensures MovesTo(op, open, Live(open[j]), Moved(op, open, j))
  {
    if op.RollBackTo? && j > op.level {
      assert open[op.level] < open[j];
    }
  }

  lemma EventMoves<E>(ops: seq<Op<E>>, i: nat)
    requires WellFormed(ops) && ops != [] && i < |ops| - 1
    ensures MovesTo(ops[|ops| - 1], Open(ops[..|ops| - 1]), StandingAt(ops[..|ops| - 1], i), StandingAt(ops, i))
  {
    if StandingAt(ops[..|ops| - 1], i).Live? {
      var j := LiveMoves(ops, i);
      MovedMovesTo(ops[|ops| - 1], Open(ops[..|ops| - 1]), j);
    } else {
      SettledStays(ops, i);
    }
  }

  /** Live events belong to scopes at least as old as the outermost open one. */
  lemma BeforeRootSettled<E>(ops: seq<Op<E>>, i: nat)
    requires WellFormed(ops) && i < Open(ops)[0] && i < |ops|
    ensures !StandingAt(ops, i).Live?
  {
    LiveIsOpen(ops, TopAfter(ops, i));
  }

  /** Nothing is published or discarded while scopes open and are released. */
  lemma SelectQuiet<E>(ops: seq<Op<E>>, m: nat)
    requires WellFormed(ops) && ops != [] && m <= |ops| - 1
    requires var op := ops[|ops| - 1]; op.Enqueue? || op.Begin? || op.Release?
    ensures var front, n := ops[..|ops| - 1], |ops| - 1;
            Select(ops, m, n, IsLive) == Select(front, m, n, IsLive)
  {
    forall i | 0 <= i < |ops| - 1 ensures IsLive(StandingAt(ops, i)) == IsLive(StandingAt(ops[..|ops| - 1], i)) {
      EventMoves(ops, i);
    }
    SelectSame(ops, m, |ops| - 1, IsLive, IsLive);
  }

  /** Only the outermost commit publishes. */
  lemma SelectUnpublished<E>(ops: seq<Op<E>>)
    requires WellFormed(ops) && ops != [] && !ops[|ops| - 1].Commit?
    ensures var front, n := ops[..|ops| - 1], |ops| - 1;
            Select(ops, 0, n, IsOut) == Select(front, 0, n, IsOut)
  {
    forall i | 0 <= i < |ops| - 1 ensures IsOut(StandingAt(ops, i)) == IsOut(StandingAt(ops[..|ops| - 1], i)) {
      EventMoves(ops, i);
    }
    SelectSame(ops, 0, |ops| - 1, IsOut, IsOut);
  }

  /** Rolling a savepoint back leaves the live events that preceded it. */
  lemma SelectRolledBack<E>(ops: seq<Op<E>>, l: nat)
    requires WellFormed(ops) && ops != [] && l < |Open(ops[..|ops| - 1])|
    requires ops[|ops| - 1].RollBackTo? && l < ops[|ops| - 1].level
    ensures var front, n := ops[..|ops| - 1], |ops| - 1;
            var o, p := Open(front)[l], Open(front)[ops[n].level];
            o <= p <= n && Select(ops, o, n, IsLive) == Select(front, o, p, IsLive)
  {
    var front, n := ops[..|ops| - 1], |ops| - 1;
    var o, p := Open(front)[l], Open(front)[ops[n].level];
    forall i | o <= i < n
      ensures i < p ==> IsLive(StandingAt(ops, i)) == IsLive(StandingAt(front, i))
      ensures p <= i ==> !IsLive(StandingAt(ops, i))
    {
      EventMoves(ops, i);
      if p <= i {
        EventStaysInside(front, p, i);
      }
    }
    SelectSame(ops, o, p, IsLive, IsLive);
    SelectSplit(ops, o, p, n, IsLive);
    SelectNone(ops, p, n, IsLive);
  }

  /** The outermost commit publishes what is live. */
  lemma SelectCommitted<E>(ops: seq<Op<E>>)
    requires WellFormed(ops) && ops != [] && ops[|ops| - 1].Commit?
    ensures var front, n := ops[..|ops| - 1], |ops| - 1;
            Select(ops, 0, n, IsOut) == Select(front, 0, n, IsOut) + Select(front, Open(front)[0], n, IsLive)
  {
    var front, n := ops[..|ops| - 1], |ops| - 1;
    var o := Open(front)[0];
    forall i | 0 <= i < n
      ensures i < o ==> IsOut(StandingAt(ops, i)) == IsOut(StandingAt(front, i))
      ensures o <= i ==> IsOut(StandingAt(ops, i)) == IsLive(StandingAt(front, i)) && !IsOut(StandingAt(front, i))
    {
      CommittedStands(ops, i);
    }
    SelectSame(ops, 0, o, IsOut, IsOut);
    SelectSame(ops, o, n, IsOut, IsLive);
    SelectSplit(ops, 0, o, n, IsOut);
    SelectSettled(front, o, n);
  }

  lemma SelectSettled<E>(ops: seq<Op<E>>, o: nat, n: nat)
    requires WellFormed(ops) && o <= n <= |ops|
    requires forall i :: o <= i < n ==> !IsOut(StandingAt(ops, i))
    ensures Select(ops, 0, n, IsOut) == Select(ops, 0, o, IsOut)
  {
    SelectSplit(ops, 0, o, n, IsOut);
    SelectNone(ops, o, n, IsOut);
  }

  /** The outermost commit lets out exactly the live events, all of the present transaction. */
  lemma CommittedStands<E>(ops: seq<Op<E>>, i: nat)
    requires WellFormed(ops) && ops != [] && ops[|ops| - 1].Commit? && i < |ops| - 1
    ensures var front := ops[..|ops| - 1];
            if i < Open(front)[0] then IsOut(StandingAt(ops, i)) == IsOut(StandingAt(front, i))
            else IsOut(StandingAt(ops, i)) == IsLive(StandingAt(front, i)) && !IsOut(StandingAt(front, i))
  {
    var front := ops[..|ops| - 1];
    EventMoves(ops, i);
    if i < Open(front)[0] {
      BeforeRootSettled(front, i);
    } else {
      EventStaysInside(front, Open(front)[0], i);
    }
  }

  lemma {:induction false} FlattenConcat<E>(s: seq<seq<E>>, t: seq<seq<E>>)
    ensures Flatten(s + t) == Flatten(s) + Flatten(t)
  {
    if s == [] {
      assert s + t == t;
    } else {
      assert (s + t)[1..] == s[1..] + t;
      FlattenConcat(s[1..], t);
    }
  }

  lemma FlattenOne<E>(x: seq<E>)
    ensures Flatten([x]) == x
  {
    assert [x][1..] == [];
  }

  /** From every level up, the stack holds exactly the events live since that scope began. */
  ghost predicate Mirrors<E>(ops: seq<Op<E>>, l: Ledger<E>)
    requires WellFormed(ops)
  {
    && |l.scopes| == |Open(ops)|
    && l.published == Select(ops, 0, |ops|, IsOut)
    && forall k :: 0 <= k < |l.scopes| ==> Flatten(l.scopes[k..]) == Select(ops, Open(ops)[k], |ops|, IsLive)
  }

  /** The last operation's own event, if it is an enqueue, is live. */
  lemma LastEvent<E>(ops: seq<Op<E>>, m: nat)
    requires WellFormed(ops) && ops != [] && m < |ops|
    ensures Select(ops, m, |ops|, IsLive)
         == Select(ops, m, |ops| - 1, IsLive) + if ops[|ops| - 1].Enqueue? then [ops[|ops| - 1].event] else []
    ensures Select(ops, 0, |ops|, IsOut) == Select(ops, 0, |ops| - 1, IsOut)
  {
    if ops[|ops| - 1].Enqueue? {
      assert TopAfter(ops, |ops| - 1) in Open(ops);
    }
  }

  lemma FlattenEnqueue<E>(before: seq<seq<E>>, k: nat, e: E)
    requires k < |before|
    ensures var top := |before| - 1;
            Flatten((before[..top] + [before[top] + [e]])[k..]) == Flatten(before[k..]) + [e]
  {
    var top := |before| - 1;
    assert before[k..] == before[k..top] + [before[top]];
    assert (before[..top] + [before[top] + [e]])[k..] == before[k..top] + [before[top] + [e]];
    FlattenConcat(before[k..top], [before[top]]);
    FlattenConcat(before[k..top], [before[top] + [e]]);
    FlattenOne(before[top]);
    FlattenOne(before[top] + [e]);
  }

  lemma FlattenBegin<E>(before: seq<seq<E>>, k: nat)
    requires k < |before|
    ensures Flatten((before + [[]])[k..]) == Flatten(before[k..])
  {
    assert (before + [[]])[k..] == before[k..] + [[]];
    FlattenConcat(before[k..], [[]]);
    FlattenOne<E>([]);
  }

  lemma FlattenCut<E>(before: seq<seq<E>>, k: nat, level: nat)
    requires k < level < |before|
    ensures Flatten(before[k..]) == Flatten(before[..level][k..]) + Flatten(before[level..])
  {
    assert before[k..] == before[..level][k..] + before[level..];
    FlattenConcat(before[..level][k..], before[level..]);
  }

  lemma FlattenRelease<E>(before: seq<seq<E>>, k: nat, level: nat)
    requires k < level < |before|
    ensures Flatten((before[..level - 1] + [Flatten(before[level - 1..])])[k..]) == Flatten(before[k..])
  {
    var merged := Flatten(before[level - 1..]);
    assert before[k..] == before[k..level - 1] + before[level - 1..];
    assert (before[..level - 1] + [merged])[k..] == before[k..level - 1] + [merged];
    FlattenConcat(before[k..level - 1], before[level - 1..]);
    FlattenConcat(before[k..level - 1], [merged]);
    FlattenOne(merged);
  }

  /** What an operation that publishes nothing does to the events from level k up. */
  lemma FlattenApply<E>(l: Ledger<E>, op: Op<E>, k: nat)
    requires l.scopes != [] && Allowed(op, |l.scopes|) && k < |l.scopes|
    ensures op.Enqueue? ==> Flatten(Apply(op, l).scopes[k..]) == Flatten(l.scopes[k..]) + [op.event]
    ensures op.Begin? ==> Flatten(Apply(op, l).scopes[k..]) == Flatten(l.scopes[k..])
    ensures op.Release? && k < op.level ==> Flatten(Apply(op, l).scopes[k..]) == Flatten(l.scopes[k..])
  {
    var before := l.scopes;
    match op {
      case Enqueue(e) => FlattenEnqueue(before, k, e);
      case Begin => FlattenBegin(before, k);
      case Release(level) =>
        if k < level {
          FlattenRelease(before, k, level);
        }
      case _ =>
    }
  }

  lemma SameHead<E>(a: seq<E>, b: seq<E>, tail: seq<E>)
    requires a + tail == b + tail
    ensures a == b
  {
    assert |a| == |b|;
    assert a == (a + tail)[..|a|] && b == (b + tail)[..|b|];
  }

  /** The mirror is kept at a level that was open before the operation and stays open. */
  lemma MirrorLevel<E>(ops: seq<Op<E>>, k: nat)
    requires WellFormed(ops) && ops != [] && Mirrors(ops[..|ops| - 1], Run(ops[..|ops| - 1]))
    requires k < |Open(ops[..|ops| - 1])| && k < Kept(ops[|ops| - 1], |Open(ops[..|ops| - 1])|)
    ensures k < |Open(ops)|
    ensures Flatten(Run(ops).scopes[k..]) == Select(ops, Open(ops)[k], |ops|, IsLive)
  {
    var front, op := ops[..|ops| - 1], ops[|ops| - 1];
    var o := Open(front)[k];
    StaysOpen(ops, k);
    LastEvent(ops, o);
    if op.Enqueue? || op.Begin? || op.Release? {
      SelectQuiet(ops, o);
      FlattenApply(Run(front), op, k);
    } else if op.RollBackTo? {
      FlattenCut(Run(front).scopes, k, op.level);
      var p := Open(front)[op.level];
      SelectRolledBack(ops, k);
      SelectSplit(front, o, p, |front|, IsLive);
      SameHead(Flatten(Run(ops).scopes[k..]), Select(front, o, p, IsLive), Flatten(Run(front).scopes[op.level..]));
    }
  }

  lemma MirrorPublished<E>(ops: seq<Op<E>>)
    requires WellFormed(ops) && ops != [] && Mirrors(ops[..|ops| - 1], Run(ops[..|ops| - 1]))
    ensures Run(ops).published == Select(ops, 0, |ops|, IsOut)
  {
    if ops[|ops| - 1].Commit? {
      MirrorCommit(ops);
    } else {
      LastEvent(ops, 0);
      SelectUnpublished(ops);
      StaysPublished(Run(ops[..|ops| - 1]), ops[|ops| - 1]);
    }
  }

  lemma MirrorCommit<E>(ops: seq<Op<E>>)
    requires WellFormed(ops) && ops != [] && Mirrors(ops[..|ops| - 1], Run(ops[..|ops| - 1])) && ops[|ops| - 1].Commit?
    ensures Run(ops).published == Select(ops, 0, |ops|, IsOut)
  {
    LastEvent(ops, 0);
    SelectCommitted(ops);
    FromBottom(Run(ops[..|ops| - 1]).scopes);
  }

  lemma FromBottom<E>(scopes: seq<seq<E>>)
    ensures scopes[0..] == scopes
  {
  }

  lemma StaysPublished<E>(l: Ledger<E>, op: Op<E>)
    requires l.scopes != [] && Allowed(op, |l.scopes|) && !op.Commit?
    ensures Apply(op, l).published == l.published
  {
  }

  /** A scope that the operation itself begins is empty. */
  lemma MirrorFresh<E>(ops: seq<Op<E>>, k: nat)
    requires WellFormed(ops) && ops != [] && k < |Open(ops)|
    requires k >= |Open(ops[..|ops| - 1])| || k >= Kept(ops[|ops| - 1], |Open(ops[..|ops| - 1])|)
    ensures Flatten(Run(ops).scopes[k..]) == Select(ops, Open(ops)[k], |ops|, IsLive)
  {
    var before := Run(ops[..|ops| - 1]).scopes;
    assert Run(ops).scopes[k..] == [[]];
    FlattenOne<E>([]);
    assert Open(ops)[k] == |ops|;
  }

  lemma MirrorsStep<E>(ops: seq<Op<E>>)
    requires WellFormed(ops) && ops != [] && Mirrors(ops[..|ops| - 1], Run(ops[..|ops| - 1]))
    ensures Mirrors(ops, Run(ops))
  {
    MirrorPublished(ops);
    forall k | 0 <= k < |Open(ops)|
      ensures Flatten(Run(ops).scopes[k..]) == Select(ops, Open(ops)[k], |ops|, IsLive)
    {
      if k < |Open(ops[..|ops| - 1])| && k < Kept(ops[|ops| - 1], |Open(ops[..|ops| - 1])|) {
        MirrorLevel(ops, k);
      } else {
        MirrorFresh(ops, k);
      }
    }
  }

  lemma {:induction false} RunMirrors<E>(ops: seq<Op<E>>)
    requires WellFormed(ops)
    ensures Mirrors(ops, Run(ops))
  {
    if ops == [] {
      FlattenOne<E>([]);
      assert Run(ops).scopes[0..] == [[]];
    } else {
      RunMirrors(ops[..|ops| - 1]);
      MirrorsStep(ops);
    }
  }

  /** A run publishes exactly the events whose scope and every scope around it committed, in the
      order in which they were enqueued, each once. */
  lemma RunPublishesSurviving<E>(ops: seq<Op<E>>)
    requires WellFormed(ops)
    ensures Run(ops).published == Surviving(ops, |ops|)
  {
    RunMirrors(ops);
    SurvivingIsOut(ops, |ops|);
  }

  /** While the savepoint at a level is open, nothing below it changes. */
  lemma {:induction false} BelowUntouched<E>(ops: seq<Op<E>>, k: nat)
    requires WellFormed(ops) && 0 < k < |Open(ops)|
    ensures var s := Open(ops)[k];
            && s > 0 && WellFormed(ops[..s - 1])
            && Run(ops).scopes[..k] == Run(ops[..s - 1]).scopes
            && Run(ops).published == Run(ops[..s - 1]).published
    decreases |ops|
  {
    var s := Open(ops)[k];
    var front := ops[..|ops| - 1];
    if s == |ops| {
      assert ops[..s - 1] == front;
    } else {
      BelowKept(ops, k);
      BelowUntouched(front, k);
      assert front[..s - 1] == ops[..s - 1];
    }
  }

  lemma BelowKept<E>(ops: seq<Op<E>>, k: nat)
    requires WellFormed(ops) && 0 < k < |Open(ops)| && Open(ops)[k] < |ops|
    ensures var front := ops[..|ops| - 1];
            && k < |Open(front)| && Open(front)[k] == Open(ops)[k]
            && Run(ops).scopes[..k] == Run(front).scopes[..k] && Run(ops).published == Run(front).published
  {
  }

  /** Rolling a savepoint back restores everything to where it began, whatever ran inside it. */
  lemma RollBackRestores<E>(ops: seq<Op<E>>, level: nat)
    requires WellFormed(ops) && 1 <= level < |Open(ops)|
    ensures 0 < Open(ops)[level]
    ensures var begun := Open(ops)[level] - 1;
            && begun < |ops| && WellFormed(ops[..begun]) && ops[begun] == Begin
            && WellFormed(ops + [RollBackTo(level)])
            && Run(ops + [RollBackTo(level)]) == Run(ops[..begun])
  {
    BelowUntouched(ops, level);
    ParentBelow(ops, level);
    assert (ops + [RollBackTo(level)])[..|ops|] == ops;
  }
}

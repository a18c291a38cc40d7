/** The per-request outbox of realtime events: one flat list with a length mark per open savepoint. */
module Outbox {
  // The session's transaction callbacks keep the list. It refines the stack of scopes of module Scopes.

  import opened Wrappers
  import opened Scopes

  /** The identity of a SessionTransaction. */
  type Tx = nat

  /** The dict of savepoint marks, in insertion order. */
  type Marks = seq<(Tx, nat)>

  /** dict assignment: replaces in place, or appends. */
  function SetMark(marks: Marks, tx: Tx, mark: nat): Marks {
    if marks == [] then [(tx, mark)]
    else if marks[0].0 == tx then [(tx, mark)] + marks[1..]
    else [marks[0]] + SetMark(marks[1..], tx, mark)
  }

  /** dict.pop with a default. */
  function PopMark(marks: Marks, tx: Tx): Marks {
    if marks == [] then []
    else if marks[0].0 == tx then marks[1..]
    else [marks[0]] + PopMark(marks[1..], tx)
  }

  lemma {:induction false} SetFresh(marks: Marks, tx: Tx, mark: nat)
    requires forall i :: 0 <= i < |marks| ==> marks[i].0 != tx
    ensures SetMark(marks, tx, mark) == marks + [(tx, mark)]
  {
    if marks != [] {
      assert forall i :: 0 <= i < |marks| - 1 ==> marks[1..][i] == marks[i + 1];
      SetFresh(marks[1..], tx, mark);
    }
  }

  lemma {:induction false} PopLast(marks: Marks)
    requires marks != []
    requires forall i :: 0 <= i < |marks| - 1 ==> marks[i].0 != marks[|marks| - 1].0
    ensures PopMark(marks, marks[|marks| - 1].0) == marks[..|marks| - 1]
  {
    if |marks| > 1 {
      assert marks[0].0 != marks[|marks| - 1].0;
      assert forall i :: 0 <= i < |marks| - 1 ==> marks[1..][i] == marks[i + 1];
      PopLast(marks[1..]);
      assert marks[..|marks| - 1] == [marks[0]] + marks[1..][..|marks| - 2];
    }
  }

  /** The flat list cut at the marks: the stack of scopes it stands for. */
  function Cut<E>(events: seq<E>, marks: Marks): (scopes: seq<seq<E>>)
    requires Ascending(marks, |events|)
    ensures |scopes| == |marks| + 1
    decreases marks
  {
    if marks == [] then [events]
    else
      var last := marks[|marks| - 1].1;
      Cut(events[..last], marks[..|marks| - 1]) + [events[last..]]
  }

  /** The marks grow from the outermost savepoint to the innermost, up to the list's length. */
  predicate Ascending(marks: Marks, length: nat) {
    && (forall i, j :: 0 <= i < j < |marks| ==> marks[i].1 <= marks[j].1)
    && (forall i :: 0 <= i < |marks| ==> marks[i].1 <= length)
  }

  lemma {:induction false} CutFlattens<E>(events: seq<E>, marks: Marks)
    requires Ascending(marks, |events|)
    ensures Flatten(Cut(events, marks)) == events
    decreases marks
  {
    if marks == [] {
      FlattenOne(events);
    } else {
      var last := marks[|marks| - 1].1;
      CutFlattens(events[..last], marks[..|marks| - 1]);
      FlattenConcat(Cut(events[..last], marks[..|marks| - 1]), [events[last..]]);
      FlattenOne(events[last..]);
      assert events == events[..last] + events[last..];
    }
  }

  lemma CutEnqueue<E>(events: seq<E>, marks: Marks, e: E)
    requires Ascending(marks, |events|)
    ensures var s := Cut(events, marks);
            Cut(events + [e], marks) == s[..|s| - 1] + [s[|s| - 1] + [e]]
  {
    if marks != [] {
      var last := marks[|marks| - 1].1;
      assert (events + [e])[..last] == events[..last];
      assert (events + [e])[last..] == events[last..] + [e];
    }
  }

  lemma CutBegin<E>(events: seq<E>, marks: Marks, tx: Tx)
    requires Ascending(marks, |events|)
    ensures Cut(events, marks + [(tx, |events|)]) == Cut(events, marks) + [[]]
  {
    var more := marks + [(tx, |events|)];
    assert more[..|more| - 1] == marks && more[|more| - 1].1 == |events|;
    assert events[..|events|] == events && events[|events|..] == [];
  }

  /** Forgetting the newest mark merges the innermost scope into the one around it. */
  lemma CutRelease<E>(events: seq<E>, marks: Marks)
    requires Ascending(marks, |events|) && marks != []
    ensures var s := Cut(events, marks);
            Cut(events, marks[..|marks| - 1]) == s[..|s| - 2] + [s[|s| - 2] + s[|s| - 1]]
  {
    var last, rest := marks[|marks| - 1].1, marks[..|marks| - 1];
    if rest == [] {
      assert events == events[..last] + events[last..];
    } else {
      var before := rest[|rest| - 1].1;
      assert before <= last;
      assert events[..last][..before] == events[..before];
      assert events[before..] == events[..last][before..] + events[last..];
    }
  }

  lemma TopTwo<E>(s: seq<seq<E>>)
    requires |s| >= 2
    ensures Flatten(s[|s| - 2..]) == s[|s| - 2] + s[|s| - 1]
  {
    assert s[|s| - 2..] == [s[|s| - 2]] + [s[|s| - 1]];
    FlattenConcat([s[|s| - 2]], [s[|s| - 1]]);
    FlattenOne(s[|s| - 2]);
    FlattenOne(s[|s| - 1]);
  }

  /** Forgetting the newest mark is releasing the innermost scope. */
  lemma ReleasedTop<E>(events: seq<E>, marks: Marks, published: seq<E>)
    requires Ascending(marks, |events|) && marks != []
    ensures Ledger(Cut(events, marks[..|marks| - 1]), published)
         == Apply(Release(|marks|), Ledger(Cut(events, marks), published))
  {
    CutRelease(events, marks);
    TopTwo(Cut(events, marks));
  }

  /** Releasing the innermost scope keeps the scopes further out and the events from level - 1 up. */
  lemma ReleaseKeeps<E>(l: Ledger<E>, top: nat, level: nat)
    requires 1 <= level <= top && |l.scopes| == top + 1
    ensures var s := Apply(Release(top), l).scopes;
            && |s| == top
            && s[..level - 1] == l.scopes[..level - 1]
            && Flatten(s[level - 1..]) == Flatten(l.scopes[level - 1..])
  {
    FlattenApply(l, Release(top), level - 1);
  }

  /** The marks belong to the open savepoints, in the same order; identities are never reused. */
  predicate MarksOf(marks: Marks, nested: seq<Tx>, nextTx: Tx) {
    && |marks| == |nested|
    && (forall i :: 0 <= i < |nested| ==> marks[i].0 == nested[i])
    && (forall i, j :: 0 <= i < j < |nested| ==> nested[i] < nested[j])
    && (forall i :: 0 <= i < |nested| ==> nested[i] < nextTx)
  }

  /** A new mark at the length of the list opens an empty scope. */
  lemma Begun<E>(events: seq<E>, marks: Marks, nested: seq<Tx>, nextTx: Tx, published: seq<E>)
    requires MarksOf(marks, nested, nextTx) && Ascending(marks, |events|)
    ensures var marked := SetMark(marks, nextTx, |events|);
            && MarksOf(marked, nested + [nextTx], nextTx + 1)
            && Ascending(marked, |events|)
            && Ledger(Cut(events, marked), published) == Apply(Begin, Ledger(Cut(events, marks), published))
  {
    SetFresh(marks, nextTx, |events|);
    CutBegin(events, marks, nextTx);
  }

  /** The flat list, its marks and the open savepoints stand for the ledger. */
  ghost predicate StandFor<E>(events: seq<E>, marks: Marks, nested: seq<Tx>, nextTx: Tx, published: seq<E>,
                              l: Ledger<E>) {
    && MarksOf(marks, nested, nextTx)
    && Ascending(marks, |events|)
    && Ledger(Cut(events, marks), published) == l
  }

  /** Forgetting the mark of the innermost savepoint releases its scope. */
  lemma Closed<E>(events: seq<E>, marks: Marks, nested: seq<Tx>, nextTx: Tx, published: seq<E>)
    requires MarksOf(marks, nested, nextTx) && Ascending(marks, |events|) && nested != []
    ensures var rest := PopMark(marks, nested[|nested| - 1]);
            && rest == marks[..|marks| - 1]
            && StandFor(events, rest, nested[..|nested| - 1], nextTx, published,
                        Apply(Release(|nested|), Ledger(Cut(events, marks), published)))
  {
    MarksEnd(marks, nested, nextTx);
    ReleasedTop(events, marks, published);
  }

  lemma MarksEnd(marks: Marks, nested: seq<Tx>, nextTx: Tx)
    requires MarksOf(marks, nested, nextTx) && nested != []
    ensures PopMark(marks, nested[|nested| - 1]) == marks[..|marks| - 1]
    ensures MarksOf(marks[..|marks| - 1], nested[..|nested| - 1], nextTx)
  {
    PopLast(marks);
  }

  /** The session, with the two entries of its info dict that the callbacks keep. */
  class Session<E> {
    var outbox: Option<seq<E>>
    var marks: Option<Marks>
    var nested: seq<Tx>    // the open savepoints, outermost first, as the database layer sees them
    var nextTx: Tx
    var published: seq<E>  // what was handed to the publisher

    function Events(): seq<E>
      reads this
    {
      if outbox.Some? then outbox.value else []
    }

    function MarkList(): Marks
      reads this
    {
      if marks.Some? then marks.value else []
    }

    /** One mark per open savepoint, in the same order. */
    ghost predicate Valid()
      reads this
    {
      MarksOf(MarkList(), nested, nextTx) && Ascending(MarkList(), |Events()|)
    }

    /** The stack of scopes that the flat outbox and its marks stand for. */
    ghost function Meaning(): (l: Ledger<E>)
      requires Valid()
      reads this
      ensures |l.scopes| == |nested| + 1
    {
      Ledger(Cut(Events(), MarkList()), published)
    }

    constructor ()
      ensures Valid() && Meaning() == Run<E>([])
    {
      outbox, marks, nested, nextTx, published := None, None, [], 0, [];
    }

    // ---- The callbacks -------------------------------------------------------------------

    method EnqueueEvent(e: E)
      requires Valid()
      modifies this`outbox
      ensures Valid() && Meaning() == Apply(Enqueue(e), old(Meaning()))
    {
      CutEnqueue(Events(), MarkList(), e);
      if outbox.None? {
        outbox := Some([]);
      }
      outbox := Some(outbox.value + [e]);
    }

    method DrainOutbox()
      modifies this`outbox, this`published
      ensures outbox == None && published == old(published) + old(Events())
    {
      var drained := Events();
      outbox := None;
      for i := 0 to |drained|
        invariant outbox == None && published == old(published) + drained[..i]
      {
        assert drained[..i + 1] == drained[..i] + [drained[i]];
        published := published + [drained[i]];
      }
      assert drained[..|drained|] == drained;
    }

    /** after_commit: fires for a savepoint release too, while that savepoint is still open. */
    method OnCommit()
      modifies this`outbox, this`published
      ensures old(nested) != [] ==> outbox == old(outbox) && published == old(published)
      ensures old(nested) == [] ==> outbox == None && published == old(published) + old(Events())
    {
      if nested != [] {
        return;
      }
      DrainOutbox();
    }

    /** after_rollback: truncates to the newest mark; with no mark, discards everything. */
    method OnRollback()
      requires Ascending(MarkList(), |Events()|)
      modifies this`outbox
      ensures MarkList() == [] ==> outbox == None
      ensures MarkList() != [] ==> Events() == old(Events())[..MarkList()[|MarkList()| - 1].1]
    {
      var current := MarkList();
      if current != [] {
        if outbox.Some? {
          outbox := Some(outbox.value[..current[|current| - 1].1]);
        }
        return;
      }
      outbox := None;
    }

    method OnTransactionCreate(tx: Tx, isNested: bool)
      modifies this`marks
      ensures !isNested ==> marks == old(marks)
      ensures isNested ==> marks == Some(SetMark(old(MarkList()), tx, |Events()|))
    {
      if isNested {
        if marks.None? {
          marks := Some([]);
        }
        marks := Some(SetMark(marks.value, tx, |Events()|));
      }
    }

    method OnTransactionEnd(tx: Tx, isNested: bool)
      modifies this`marks
      ensures !isNested ==> marks == old(marks)
      ensures isNested ==> MarkList() == PopMark(old(MarkList()), tx)
    {
      if isNested && marks.Some? {
        marks := Some(PopMark(marks.value, tx));
      }
    }

    // ---- The callbacks that each operation of the application fires, in order -------------

    method BeginNested()
      requires Valid()
      modifies this
      ensures Valid() && Meaning() == Apply(Begin, old(Meaning()))
    {
      ghost var marked := SetMark(MarkList(), nextTx, |Events()|);
      Begun(Events(), MarkList(), nested, nextTx, published);
      OnTransactionCreate(nextTx, true);
      assert MarkList() == marked;
      nested := nested + [nextTx];
      nextTx := nextTx + 1;
    }

    /** The end of the innermost savepoint, without a callback for commit or rollback before it. */
    method CloseInnermost()
      requires Valid() && nested != []
      modifies this`marks, this`nested
      ensures Valid() && nested == old(nested)[..|old(nested)| - 1]
      ensures MarkList() == old(MarkList())[..|old(MarkList())| - 1]
      ensures Meaning() == Apply(Release(|old(nested)|), old(Meaning()))
    {
      var tx := nested[|nested| - 1];
      Closed(Events(), MarkList(), nested, nextTx, published);
      ghost var rest := PopMark(MarkList(), tx);
      ghost var released := Apply(Release(|nested|), Meaning());
      nested := nested[..|nested| - 1];
      OnTransactionEnd(tx, true);
      assert StandFor(Events(), MarkList(), nested, nextTx, published, released);
    }

    method ReleaseInnermost()
      requires Valid() && nested != []
      modifies this
      ensures Valid() && nested == old(nested)[..|old(nested)| - 1]
      ensures Meaning() == Apply(Release(|old(nested)|), old(Meaning()))
    {
      OnCommit();
      CloseInnermost();
    }

    method RollbackInnermost()
      requires Valid() && nested != []
      modifies this
      ensures Valid() && nested == old(nested)[..|old(nested)| - 1]
      ensures Meaning() == Apply(RollBackTo(|old(nested)|), old(Meaning()))
    {
      ghost var events, current := Events(), MarkList();
      OnRollback();
      CloseInnermost();
      assert Events() == events[..current[|current| - 1].1];
    }

    /** Releasing a savepoint releases those inside it first. */
    method ReleaseTo(level: nat)
      requires Valid() && 1 <= level <= |nested|
      modifies this
      ensures Valid() && |nested| == level - 1
      ensures Meaning() == Apply(Release(level), old(Meaning()))
    {
      ghost var before := Meaning();
      while |nested| >= level
        invariant Valid() && level - 1 <= |nested|
        invariant Meaning().published == before.published
        invariant Meaning().scopes[..level - 1] == before.scopes[..level - 1]
        invariant Flatten(Meaning().scopes[level - 1..]) == Flatten(before.scopes[level - 1..])
        decreases |nested|
      {
        ReleaseKeeps(Meaning(), |nested|, level);
        ReleaseInnermost();
      }
      LastScope(Meaning().scopes);
    }

    /** Rolling a savepoint back only closes those inside it. */
    method RollbackTo(level: nat)
      requires Valid() && 1 <= level <= |nested|
      modifies this
      ensures Valid()
      ensures Meaning() == Apply(RollBackTo(level), old(Meaning()))
    {
      ghost var before := Meaning();
      while |nested| > level
        invariant Valid() && level <= |nested|
        invariant Meaning().published == before.published
        invariant Meaning().scopes[..level] == before.scopes[..level]
        decreases |nested|
      {
        CloseInnermost();
      }
      RollbackInnermost();
    }

    method CommitAll()
      requires Valid()
      modifies this
      ensures Valid() && Meaning() == Apply(Commit, old(Meaning()))
    {
      ghost var before := Meaning();
      if nested != [] {
        FlattenApply(Meaning(), Release(1), 0);
        assert before.scopes[0..] == before.scopes;
        ReleaseTo(1);
        assert Meaning().scopes[0..] == Meaning().scopes;
      }
      CutFlattens(Events(), MarkList());
      OnCommit();
    }

    /** Open savepoints are rolled back first, so that no mark is left for the outermost one. */
    method RollbackAll()
      requires Valid()
      modifies this
      ensures Valid() && Meaning() == Apply(RollBack, old(Meaning()))
    {
      while nested != []
        invariant Valid() && published == old(published)
        decreases |nested|
      {
        RollbackInnermost();
      }
      OnRollback();
    }

    method Perform(op: Op<E>)
      requires Valid() && Allowed(op, |Meaning().scopes|)
      modifies this
      ensures Valid() && Meaning() == Apply(op, old(Meaning()))
    {
      match op {
        case Enqueue(e) => EnqueueEvent(e);
        case Begin => BeginNested();
        case Release(level) => ReleaseTo(level);
        case RollBackTo(level) => RollbackTo(level);
        case Commit => CommitAll();
        case RollBack => RollbackAll();
      }
    }
  }

  lemma LastScope<E>(s: seq<seq<E>>)
    requires s != []
    ensures Flatten(s[|s| - 1..]) == s[|s| - 1]
  {
    assert s[|s| - 1..] == [s[|s| - 1]];
    FlattenOne(s[|s| - 1]);
  }

  /** Over every run on a fresh session, what is published is exactly the surviving events. */
  method RunSession<E>(ops: seq<Op<E>>) returns (published: seq<E>)
    requires WellFormed(ops)
    ensures published == Surviving(ops, |ops|)
  {
    var session := new Session<E>();
    for i := 0 to |ops|
      invariant session.Valid() && WellFormed(ops[..i]) && session.Meaning() == Run(ops[..i])
    {
      WellFormedPrefix(ops, i + 1);
      assert ops[..i + 1][..i] == ops[..i];
      session.Perform(ops[i]);
    }
    assert ops[..|ops|] == ops;
    RunPublishesSurviving(ops);
    published := session.published;
  }
}

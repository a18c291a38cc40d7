/** Which order of the stops a v2 lock commits to: that of the stops that share a sequence, and no other. */
module StopOrder {
  import opened CanonicalJson
  import opened Sorting
  import opened JourneyLock
  import opened JourneyCommitment

  /** The facts with a sequence, in the order in which they come. */
  function At(facts: seq<StopFact>, sequence: int): seq<StopFact> {
    if facts == [] then []
    else (if facts[0].sequence == sequence then [facts[0]] else []) + At(facts[1..], sequence)
  }

  lemma AtCons(x: StopFact, facts: seq<StopFact>, sequence: int)
    ensures At([x] + facts, sequence) == (if x.sequence == sequence then [x] else []) + At(facts, sequence)
  {
    assert ([x] + facts)[1..] == facts;
  }

  // ---- Sorting keeps the order of ties -------------------------------------------------------

  lemma {:induction false} InsertStable(x: StopFact, facts: seq<StopFact>, sequence: int)
    ensures At(Insert(x, facts, FactBySequence), sequence) == At([x] + facts, sequence)
  {
    if facts != [] && !FactBySequence(x, facts[0]) {
      var head, rest := facts[0], facts[1..];
      InsertStable(x, rest, sequence);
      Swapped(x, head, rest, Insert(x, rest, FactBySequence), sequence);
      assert facts == [head] + rest;
    }
  }

  lemma Swapped(x: StopFact, head: StopFact, rest: seq<StopFact>, inserted: seq<StopFact>, sequence: int)
    requires x.sequence != head.sequence && At(inserted, sequence) == At([x] + rest, sequence)
    ensures At([head] + inserted, sequence) == At([x] + ([head] + rest), sequence)
  {
    AtCons(head, inserted, sequence);
    AtCons(x, rest, sequence);
    AtCons(head, rest, sequence);
    AtCons(x, [head] + rest, sequence);
  }

  /** Facts that share a sequence keep their order when they are sorted. */
  lemma {:induction false} SortStable(facts: seq<StopFact>, sequence: int)
    ensures At(Sort(facts, FactBySequence), sequence) == At(facts, sequence)
  {
    if facts != [] {
      var head, rest := facts[0], facts[1..];
      SortStable(rest, sequence);
      InsertStable(head, Sort(rest, FactBySequence), sequence);
      AtCons(head, Sort(rest, FactBySequence), sequence);
      assert facts == [head] + rest;
    }
  }

  // ---- A sorted list is what it has at each sequence -----------------------------------------

  predicate Rising(facts: seq<StopFact>) {
    forall i, j :: 0 <= i < j < |facts| ==> facts[i].sequence <= facts[j].sequence
  }

  /** Two lists have the same facts in the same order at every sequence. */
  ghost predicate SameAtEach(a: seq<StopFact>, b: seq<StopFact>) {
    forall sequence :: At(a, sequence) == At(b, sequence)
  }

  lemma {:induction false} AtMember(facts: seq<StopFact>, sequence: int)
    ensures At(facts, sequence) != [] ==> exists i :: 0 <= i < |facts| && facts[i].sequence == sequence
  {
    if facts != [] {
      AtMember(facts[1..], sequence);
      if At(facts[1..], sequence) != [] {
        var i :| 0 <= i < |facts[1..]| && facts[1..][i].sequence == sequence;
        assert facts[i + 1].sequence == sequence;
      }
    }
  }

  lemma FirstIsLeast(a: seq<StopFact>, b: seq<StopFact>)
    requires Rising(a) && a != [] && SameAtEach(a, b)
    ensures b != [] && a[0].sequence <= b[0].sequence
  {
    assert At(b, a[0].sequence) == At(a, a[0].sequence) != [];
    assert At(a, b[0].sequence) == At(b, b[0].sequence) != [];
    AtMember(a, b[0].sequence);
  }

  lemma SameFirst(a: seq<StopFact>, b: seq<StopFact>)
    requires Rising(a) && Rising(b) && a != [] && b != [] && SameAtEach(a, b)
    ensures a[0] == b[0] && SameAtEach(a[1..], b[1..])
  {
    FirstIsLeast(a, b);
    FirstIsLeast(b, a);
    var first := a[0].sequence;
    assert At(a, first)[0] == a[0] && At(b, first)[0] == b[0];
    forall sequence ensures At(a[1..], sequence) == At(b[1..], sequence) {
      assert At(a, sequence) == At(b, sequence);
      RestAt(a, b, sequence);
    }
  }

  lemma RestAt(a: seq<StopFact>, b: seq<StopFact>, sequence: int)
    requires a != [] && b != [] && a[0] == b[0] && At(a, sequence) == At(b, sequence)
    ensures At(a[1..], sequence) == At(b[1..], sequence)
  {
    if a[0].sequence == sequence {
      assert At(a, sequence)[1..] == At(a[1..], sequence) && At(b, sequence)[1..] == At(b[1..], sequence);
    } else {
      assert At(a, sequence) == At(a[1..], sequence) && At(b, sequence) == At(b[1..], sequence);
    }
  }

  lemma {:induction false} RisingDetermined(a: seq<StopFact>, b: seq<StopFact>)
    requires Rising(a) && Rising(b) && SameAtEach(a, b)
    ensures a == b
  {
    if a != [] {
      FirstIsLeast(a, b);
      SameFirst(a, b);
      RisingDetermined(a[1..], b[1..]);
      assert a == [a[0]] + a[1..] && b == [b[0]] + b[1..];
    } else if b != [] {
      FirstIsLeast(b, a);
    }
  }

  lemma SortedIffSame(a: seq<StopFact>, b: seq<StopFact>)
    ensures Sort(a, FactBySequence) == Sort(b, FactBySequence) <==> SameAtEach(a, b)
  {
    forall sequence
      ensures At(Sort(a, FactBySequence), sequence) == At(a, sequence)
      ensures At(Sort(b, FactBySequence), sequence) == At(b, sequence)
    {
      SortStable(a, sequence);
      SortStable(b, sequence);
    }
    if SameAtEach(a, b) {
      SortSorted(a, FactBySequence);
      SortSorted(b, FactBySequence);
      RisingDetermined(Sort(a, FactBySequence), Sort(b, FactBySequence));
    }
  }

  /** Two v2 locks have the same text exactly when they commit to the same trip and, at every sequence,
      to the same stops in the same order. */
  lemma V2LockOrderIff(a: Trip, s: seq<Stop>, b: Trip, t: seq<Stop>)
    requires PayloadV2(a, s).Ok? && PayloadV2(b, t).Ok?
    ensures CanonicalText(PayloadV2(a, s).value) == CanonicalText(PayloadV2(b, t).value)
        <==> CommitmentOf(a) == CommitmentOf(b) && SameAtEach(FactsOf(s), FactsOf(t))
  {
    V2LockIff(a, s, b, t);
    SortFacts(s);
    SortFacts(t);
    SortedIffSame(FactsOf(s), FactsOf(t));
  }
}

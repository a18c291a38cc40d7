/**
 What two journey locks with the same text have in common: the trip with its trailers in any
 order and its times as instants, and the stops in order of sequence.
 */
module JourneyCommitment {
  import opened Wrappers
  import opened CanonicalJson
  import opened TextOrder
  import opened Folds
  import opened Sorting
  import opened Timestamps
  import opened JourneyLock
  import Uuids

  /** A trip as the lock sees it. */
  datatype Commitment = Commitment(
    ids: seq<Uuid>, trailers: multiset<Uuid>, createdAt: int, tripType: string,
    manifest: Option<ManifestKey>, snapshot: Option<string>, departure: Option<int>, arrival: Option<int>)

  function InstantOf(value: Option<Datetime>): Option<int> {
    if value.None? then None else Some(Instant(value.value))
  }

  function IdsOf(t: Trip): seq<Uuid> {
    [t.tripId, t.driverId, t.horseId, t.originPrecinctId, t.destinationPrecinctId, t.createdByUserId]
  }

  function CommitmentOf(t: Trip): Commitment {
    Commitment(IdsOf(t), multiset(t.trailerIds), Instant(t.createdAt), t.tripType, t.ppManifest,
               t.ppManifestSnapshotSha256, InstantOf(t.plannedDepartureAt), InstantOf(t.plannedArrivalAt))
  }

  /** A stop as the lock sees it. */
  datatype StopFact = StopFact(sequence: int, precinctId: Uuid, slot: Option<int>)

  function FactOf(s: Stop): StopFact { StopFact(s.sequence, s.precinctId, InstantOf(s.slotTime)) }

  function FactsOf(stops: seq<Stop>): seq<StopFact> { Map(FactOf, stops) }

  // ---- Texts determine what they stand for -------------------------------------------------------

  lemma UtcIsoIff(a: Option<Datetime>, b: Option<Datetime>)
    requires UtcIso(a).Ok? && UtcIso(b).Ok?
    ensures UtcIso(a) == UtcIso(b) <==> InstantOf(a) == InstantOf(b)
  {
    if a.Some? && b.Some? {
      UtcTextIff(a.value, b.value);
    }
  }

  lemma TextCount(ids: seq<Uuid>, u: Uuid)
    ensures multiset(UuidTexts(ids))[Uuids.Text(u)] == multiset(ids)[u]
  {
    forall v: Uuid ensures Uuids.Text(v) == Uuids.Text(u) <==> v == u {
      Uuids.TextInjective(v, u);
    }
    MapCount(Uuids.Text, ids, u);
    assert UuidTexts(ids) == Map(Uuids.Text, ids);
  }

  lemma TextsIff(a: seq<Uuid>, b: seq<Uuid>)
    ensures multiset(UuidTexts(a)) == multiset(UuidTexts(b)) <==> multiset(a) == multiset(b)
  {
    if multiset(UuidTexts(a)) == multiset(UuidTexts(b)) {
      forall u: Uuid ensures multiset(a)[u] == multiset(b)[u] {
        TextCount(a, u);
        TextCount(b, u);
      }
    }
    if multiset(a) == multiset(b) {
      forall s ensures multiset(UuidTexts(a))[s] == multiset(UuidTexts(b))[s] {
        if s in multiset(UuidTexts(a)) {
          var i :| 0 <= i < |a| && UuidTexts(a)[i] == s;
          TextCount(a, a[i]);
          TextCount(b, a[i]);
        } else if s in multiset(UuidTexts(b)) {
          var i :| 0 <= i < |b| && UuidTexts(b)[i] == s;
          TextCount(a, b[i]);
          TextCount(b, b[i]);
        }
      }
    }
  }

  lemma SortTextsIff(s: seq<string>, t: seq<string>)
    ensures Sort(s, TextLe) == Sort(t, TextLe) <==> multiset(s) == multiset(t)
  {
    if multiset(s) == multiset(t) {
      TextLeOrders();
      forall i, j | 0 <= i < |s| && 0 <= j < |s| && TextLe(s[i], s[j]) && TextLe(s[j], s[i]) ensures s[i] == s[j] {
        TextLeTotal(s[i], s[j]);
      }
      SortForgetsOrder(s, t, TextLe);
    }
  }

  /** The order of the trailers does not matter, their number and identity do. */
  lemma TrailersIff(a: seq<Uuid>, b: seq<Uuid>)
    ensures Sort(UuidTexts(a), TextLe) == Sort(UuidTexts(b), TextLe) <==> multiset(a) == multiset(b)
  {
    SortTextsIff(UuidTexts(a), UuidTexts(b));
    TextsIff(a, b);
  }

  lemma IdsIff(a: Trip, b: Trip)
    ensures IdsOf(a) == IdsOf(b) <==> UuidTexts(IdsOf(a)) == UuidTexts(IdsOf(b))
  {
    var p, q := IdsOf(a), IdsOf(b);
    forall i | 0 <= i < 6 ensures p[i] == q[i] <==> UuidTexts(p)[i] == UuidTexts(q)[i] {
      Uuids.TextInjective(p[i], q[i]);
    }
    if UuidTexts(p) == UuidTexts(q) {
      forall i | 0 <= i < 6 ensures p[i] == q[i] {
        assert UuidTexts(p)[i] == UuidTexts(q)[i];
      }
    }
  }

  lemma TextsOfIff(a: Trip, b: Trip)
    requires TextsOf(a).Ok? && TextsOf(b).Ok?
    ensures TextsOf(a) == TextsOf(b) <==> CommitmentOf(a) == CommitmentOf(b)
  {
    IdsIff(a, b);
    IdTextsAre(a);
    IdTextsAre(b);
    TrailersIff(a.trailerIds, b.trailerIds);
    UtcIsoIff(Some(a.createdAt), Some(b.createdAt));
    UtcIsoIff(a.plannedDepartureAt, b.plannedDepartureAt);
    UtcIsoIff(a.plannedArrivalAt, b.plannedArrivalAt);
  }

  lemma IdTextsAre(t: Trip)
    requires TextsOf(t).Ok?
    ensures var x := TextsOf(t).value;
            UuidTexts(IdsOf(t))
            == [x.tripId, x.driverId, x.horseId, x.originPrecinctId, x.destinationPrecinctId, x.createdByUserId]
  {
    SixTexts(IdsOf(t));
  }

  lemma SixTexts(ids: seq<Uuid>)
    requires |ids| == 6
    ensures UuidTexts(ids) == [Uuids.Text(ids[0]), Uuids.Text(ids[1]), Uuids.Text(ids[2]),
                               Uuids.Text(ids[3]), Uuids.Text(ids[4]), Uuids.Text(ids[5])]
  {
  }

  lemma StopTextsIff(s: Stop, t: Stop)
    requires StopTextsOf(s).Ok? && StopTextsOf(t).Ok?
    ensures StopTextsOf(s) == StopTextsOf(t) <==> FactOf(s) == FactOf(t)
  {
    UtcIsoIff(s.slotTime, t.slotTime);
    Uuids.TextInjective(s.precinctId, t.precinctId);
  }

  lemma {:induction false} AllStopTextsAt(stops: seq<Stop>, i: nat)
    requires AllStopTexts(stops).Ok? && i < |stops|
    ensures StopTextsOf(stops[i]) == Ok(AllStopTexts(stops).value[i])
  {
    if i > 0 {
      AllStopTextsAt(stops[1..], i - 1);
    }
  }

  lemma AllStopTextsIff(a: seq<Stop>, b: seq<Stop>)
    requires AllStopTexts(a).Ok? && AllStopTexts(b).Ok?
    ensures AllStopTexts(a) == AllStopTexts(b) <==> FactsOf(a) == FactsOf(b)
  {
    if |a| == |b| {
      forall i | 0 <= i < |a|
        ensures AllStopTexts(a).value[i] == AllStopTexts(b).value[i] <==> FactsOf(a)[i] == FactsOf(b)[i]
      {
        AllStopTextsAt(a, i);
        AllStopTextsAt(b, i);
        StopTextsIff(a[i], b[i]);
      }
    }
  }

  // ---- Locks -------------------------------------------------------------------------------------

  /** Two v1 locks have the same text exactly when they commit to the same trip: trailers in any
      order, times as instants. */
  lemma V1LockIff(a: Trip, b: Trip)
    requires PayloadV1(a).Ok? && PayloadV1(b).Ok?
    ensures CanonicalText(PayloadV1(a).value) == CanonicalText(PayloadV1(b).value)
            <==> CommitmentOf(a) == CommitmentOf(b)
  {
    TextsOfIff(a, b);
    V1TextIff(TextsOf(a).value, TextsOf(b).value);
  }

  /** Two v2 locks have the same text exactly when they commit to the same trip and, in order of
      sequence, to the same stops at the same instants. */
  lemma V2LockIff(a: Trip, s: seq<Stop>, b: Trip, t: seq<Stop>)
    requires PayloadV2(a, s).Ok? && PayloadV2(b, t).Ok?
    ensures CanonicalText(PayloadV2(a, s).value) == CanonicalText(PayloadV2(b, t).value)
        <==> CommitmentOf(a) == CommitmentOf(b) && FactsOf(Sort(s, BySequence)) == FactsOf(Sort(t, BySequence))
  {
    TextsOfIff(a, b);
    AllStopTextsIff(Sort(s, BySequence), Sort(t, BySequence));
    V2TextIff(TextsOf(a).value, AllStopTexts(Sort(s, BySequence)).value, TextsOf(b).value,
              AllStopTexts(Sort(t, BySequence)).value);
  }

  /** No v1 lock has the text of a v2 lock. */
  lemma GenerationsDiffer(a: Trip, b: Trip, t: seq<Stop>)
    requires PayloadV1(a).Ok? && PayloadV2(b, t).Ok?
    ensures CanonicalText(PayloadV1(a).value) != CanonicalText(PayloadV2(b, t).value)
  {
    GenerationTextsDiffer(TextsOf(a).value, TextsOf(b).value, AllStopTexts(Sort(t, BySequence)).value);
  }

  // ---- The order in which stops are supplied ---------------------------------------------------

  predicate FactBySequence(s: StopFact, t: StopFact) { s.sequence <= t.sequence }

  /** Stops that share a sequence are the same stop to the lock. */
  ghost predicate TiesAgree(stops: seq<Stop>) {
    forall i, j :: 0 <= i < j < |stops| && stops[i].sequence == stops[j].sequence
        ==> FactOf(stops[i]) == FactOf(stops[j])
  }

  lemma SortFacts(stops: seq<Stop>)
    ensures FactsOf(Sort(stops, BySequence)) == Sort(FactsOf(stops), FactBySequence)
  {
    SortMap(stops, FactOf, BySequence, FactBySequence);
  }

  lemma TiedFactsSort(s: seq<StopFact>, t: seq<StopFact>)
    requires forall i, j :: 0 <= i < j < |s| && s[i].sequence == s[j].sequence ==> s[i] == s[j]
    ensures Sort(s, FactBySequence) == Sort(t, FactBySequence) <==> multiset(s) == multiset(t)
  {
    if multiset(s) == multiset(t) {
      SortForgetsOrder(s, t, FactBySequence);
    }
  }

  lemma SortedFactsIff(s: seq<Stop>, t: seq<Stop>)
    requires TiesAgree(s)
    ensures FactsOf(Sort(s, BySequence)) == FactsOf(Sort(t, BySequence))
            <==> multiset(FactsOf(s)) == multiset(FactsOf(t))
  {
    SortFacts(s);
    SortFacts(t);
    TiedFactsSort(FactsOf(s), FactsOf(t));
  }

  /** When stops that share a sequence agree, two v2 locks have the same text exactly when they commit
      to the same trip and the same stops, in whatever order either was supplied. */
  lemma V2LockIgnoresOrder(a: Trip, s: seq<Stop>, b: Trip, t: seq<Stop>)
    requires PayloadV2(a, s).Ok? && PayloadV2(b, t).Ok? && TiesAgree(s)
    ensures CanonicalText(PayloadV2(a, s).value) == CanonicalText(PayloadV2(b, t).value)
        <==> CommitmentOf(a) == CommitmentOf(b) && multiset(FactsOf(s)) == multiset(FactsOf(t))
  {
    V2LockIff(a, s, b, t);
    SortedFactsIff(s, t);
  }

  // ---- Every order of the same stops -------------------------------------------------------------

  lemma {:induction false} AllStopTextsOk(stops: seq<Stop>)
    ensures AllStopTexts(stops).Ok? <==> forall s :: s in stops ==> StopTextsOf(s).Ok?
  {
    if stops != [] {
      AllStopTextsOk(stops[1..]);
      assert forall s :: s in stops <==> s == stops[0] || s in stops[1..];
    }
  }

  lemma SameMembers(s: seq<Stop>, p: seq<Stop>)
    requires multiset(s) == multiset(p)
    ensures forall x :: x in s <==> x in p
  {
    assert forall x :: x in s <==> x in multiset(s);
    assert forall x :: x in p <==> x in multiset(p);
  }

  /** A lock exists in one order of the stops exactly when it does in every other. */
  lemma PermutedOk(t: Trip, s: seq<Stop>, p: seq<Stop>)
    requires multiset(s) == multiset(p) && PayloadV2(t, s).Ok?
    ensures PayloadV2(t, p).Ok?
  {
    SameMembers(Sort(s, BySequence), Sort(p, BySequence));
    AllStopTextsOk(Sort(s, BySequence));
    AllStopTextsOk(Sort(p, BySequence));
  }

  lemma {:induction false} PermutedFacts(s: seq<Stop>, p: seq<Stop>)
    requires multiset(s) == multiset(p)
    ensures multiset(FactsOf(s)) == multiset(FactsOf(p))
  {
    assert |s| == |multiset(s)| == |multiset(p)| == |p|;
    if s != [] {
      var last := |s| - 1;
      assert s[last] in multiset(p);
      var i :| 0 <= i < |p| && p[i] == s[last];
      WithoutMultiset(s, last);
      WithoutMultiset(p, i);
      PermutedFacts(Without(s, last), Without(p, i));
      FactsWithout(s, last);
      FactsWithout(p, i);
    }
  }

  lemma FactsWithout(s: seq<Stop>, i: nat)
    requires i < |s|
    ensures multiset(FactsOf(s)) == multiset(FactsOf(Without(s, i))) + multiset{FactOf(s[i])}
  {
    assert FactsOf(Without(s, i)) == Without(FactsOf(s), i);
    WithoutMultiset(FactsOf(s), i);
  }

  lemma InsertBefore(x: Stop, stops: seq<Stop>)
    requires stops == [] || BySequence(x, stops[0])
    ensures Insert(x, stops, BySequence) == [x] + stops
  {
  }

  lemma InsertPast(x: Stop, head: Stop, stops: seq<Stop>)
    requires !BySequence(x, head)
    ensures Insert(x, [head] + stops, BySequence) == [head] + Insert(x, stops, BySequence)
  {
    assert ([head] + stops)[1..] == stops;
  }

  lemma Shifted(head: Stop, rest: seq<Stop>, k: nat, tail: seq<Stop>)
    requires k <= |rest|
    ensures ([head] + rest)[..k + 1] + tail == [head] + (rest[..k] + tail)
  {
  }

  /** Where a stop with the sequence is inserted. */
  function Place(sequence: int, stops: seq<Stop>): (k: nat)
    ensures k <= |stops|
  {
    if stops == [] || sequence <= stops[0].sequence then 0 else 1 + Place(sequence, stops[1..])
  }

  /** The second stop is inserted at the place, and the first one right before it. */
  predicate TiedAt(x: Stop, y: Stop, stops: seq<Stop>, k: nat)
    requires k <= |stops|
  {
    Insert(x, Insert(y, stops, BySequence), BySequence) == stops[..k] + ([x, y] + stops[k..])
  }

  /** A stop inserted after another one with its sequence goes right before it. */
  lemma {:induction false} InsertTied(x: Stop, y: Stop, stops: seq<Stop>)
    requires x.sequence == y.sequence
    ensures TiedAt(x, y, stops, Place(x.sequence, stops))
  {
    if stops == [] || BySequence(y, stops[0]) {
      InsertTiedHere(x, y, stops);
    } else {
      InsertTied(x, y, stops[1..]);
      InsertTiedPast(x, y, stops, Place(x.sequence, stops[1..]));
    }
  }

  lemma InsertTiedHere(x: Stop, y: Stop, stops: seq<Stop>)
    requires x.sequence == y.sequence && (stops == [] || BySequence(y, stops[0]))
    ensures TiedAt(x, y, stops, 0)
  {
    InsertBefore(y, stops);
    InsertBefore(x, [y] + stops);
    assert [x] + ([y] + stops) == stops[..0] + ([x, y] + stops[0..]);
  }

  lemma InsertTiedPast(x: Stop, y: Stop, stops: seq<Stop>, k: nat)
    requires x.sequence == y.sequence && stops != [] && !BySequence(y, stops[0]) && k < |stops|
    requires TiedAt(x, y, stops[1..], k)
    ensures TiedAt(x, y, stops, k + 1)
  {
    var head, rest := stops[0], stops[1..];
    assert stops == [head] + rest;
    InsertPast(y, head, rest);
    InsertPast(x, head, Insert(y, rest, BySequence));
    Shifted(head, rest, k, [x, y] + rest[k..]);
    assert stops[k + 1..] == rest[k..];
  }

  lemma SortPair(x: Stop, y: Stop, rest: seq<Stop>)
    ensures Sort([x, y] + rest, BySequence) == Insert(x, Insert(y, Sort(rest, BySequence), BySequence), BySequence)
  {
    assert [x, y] + rest == [x] + ([y] + rest);
    SortCons(x, [y] + rest);
    SortCons(y, rest);
  }

  lemma SortCons(x: Stop, rest: seq<Stop>)
    ensures Sort([x] + rest, BySequence) == Insert(x, Sort(rest, BySequence), BySequence)
  {
    assert ([x] + rest)[1..] == rest;
  }

  /** Two stops that share a sequence and differ give different locks in the two orders, whatever the
      other stops are. */
  lemma TieShows(t: Trip, x: Stop, y: Stop, rest: seq<Stop>)
    requires x.sequence == y.sequence && FactOf(x) != FactOf(y)
    requires PayloadV2(t, [x, y] + rest).Ok? && PayloadV2(t, [y, x] + rest).Ok?
    ensures CanonicalText(PayloadV2(t, [x, y] + rest).value) != CanonicalText(PayloadV2(t, [y, x] + rest).value)
  {
    V2LockIff(t, [x, y] + rest, t, [y, x] + rest);
    TieSorts(x, y, rest);
  }

  /** Tied stops are sorted in the order in which they come. */
  lemma TieSorts(x: Stop, y: Stop, rest: seq<Stop>)
    requires x.sequence == y.sequence && FactOf(x) != FactOf(y)
    ensures FactsOf(Sort([x, y] + rest, BySequence)) != FactsOf(Sort([y, x] + rest, BySequence))
  {
    var k := Place(x.sequence, Sort(rest, BySequence));
    TiePlace(x, y, rest, k);
    TiePlace(y, x, rest, k);
    var one, other := Sort([x, y] + rest, BySequence), Sort([y, x] + rest, BySequence);
    assert FactsOf(one)[k] != FactsOf(other)[k];
  }

  lemma TiePlace(x: Stop, y: Stop, rest: seq<Stop>, k: nat)
    requires x.sequence == y.sequence && k == Place(x.sequence, Sort(rest, BySequence))
    ensures var sorted := Sort([x, y] + rest, BySequence); k < |sorted| && sorted[k] == x
  {
    SortPair(x, y, rest);
    InsertTied(x, y, Sort(rest, BySequence));
  }

  lemma WithoutAdd(s: seq<Stop>, i: nat)
    requires i < |s|
    ensures multiset(s) == multiset(Without(s, i)) + multiset{s[i]}
  {
    WithoutMultiset(s, i);
    assert s[i] in multiset(s);
  }

  lemma PairFirst(x: Stop, y: Stop, rest: seq<Stop>, whole: multiset<Stop>)
    requires whole == multiset(rest) + multiset{x} + multiset{y}
    ensures multiset([x, y] + rest) == whole && multiset([y, x] + rest) == whole
  {
    assert multiset([x, y] + rest) == multiset([x, y]) + multiset(rest);
    assert multiset([y, x] + rest) == multiset([y, x]) + multiset(rest);
  }

  lemma BringForward(s: seq<Stop>, i: nat, j: nat) returns (rest: seq<Stop>)
    requires i < j < |s|
    ensures multiset([s[i], s[j]] + rest) == multiset(s) && multiset([s[j], s[i]] + rest) == multiset(s)
  {
    var shorter := Without(s, j);
    rest := Without(shorter, i);
    WithoutAdd(s, j);
    WithoutAdd(shorter, i);
    assert shorter[i] == s[i];
    PairFirst(s[i], s[j], rest, multiset(s));
  }

  /** Every order of the stops gives the text of this one. */
  ghost predicate OrderFree(t: Trip, s: seq<Stop>)
    requires PayloadV2(t, s).Ok?
  {
    forall p | multiset(p) == multiset(s) ::
      PayloadV2(t, p).Ok? && CanonicalText(PayloadV2(t, p).value) == CanonicalText(PayloadV2(t, s).value)
  }

  /** The order in which stops are supplied cannot change the lock exactly when stops that share a
      sequence agree. */
  lemma OrderFreeIff(t: Trip, s: seq<Stop>)
    requires PayloadV2(t, s).Ok?
    ensures OrderFree(t, s) <==> TiesAgree(s)
  {
    if TiesAgree(s) {
      AgreeingTiesAreFree(t, s);
    } else {
      var i, j :| 0 <= i < j < |s| && s[i].sequence == s[j].sequence && FactOf(s[i]) != FactOf(s[j]);
      DifferingTieIsNot(t, s, i, j);
    }
  }

  lemma AgreeingTiesAreFree(t: Trip, s: seq<Stop>)
    requires PayloadV2(t, s).Ok? && TiesAgree(s)
    ensures OrderFree(t, s)
  {
    forall p | multiset(p) == multiset(s)
      ensures PayloadV2(t, p).Ok? && CanonicalText(PayloadV2(t, p).value) == CanonicalText(PayloadV2(t, s).value)
    {
      PermutedOk(t, s, p);
      PermutedFacts(s, p);
      V2LockIgnoresOrder(t, s, t, p);
    }
  }

  lemma DifferingTieIsNot(t: Trip, s: seq<Stop>, i: nat, j: nat)
    requires PayloadV2(t, s).Ok? && i < j < |s|
    requires s[i].sequence == s[j].sequence && FactOf(s[i]) != FactOf(s[j])
    ensures !OrderFree(t, s)
  {
    if OrderFree(t, s) {
      var rest := BringForward(s, i, j);
      FreeSame(t, s, [s[i], s[j]] + rest);
      FreeSame(t, s, [s[j], s[i]] + rest);
      TieShows(t, s[i], s[j], rest);
    }
  }

  lemma FreeSame(t: Trip, s: seq<Stop>, p: seq<Stop>)
    requires PayloadV2(t, s).Ok? && OrderFree(t, s) && multiset(p) == multiset(s)
    ensures PayloadV2(t, p).Ok? && CanonicalText(PayloadV2(t, p).value) == CanonicalText(PayloadV2(t, s).value)
  {
  }

  const TIED: seq<Stop> := [Stop(1, 0, None), Stop(1, 1, None)]

  lemma SlotlessOk(t: Trip, s: seq<Stop>)
    requires PayloadV1(t).Ok? && forall x :: x in s ==> x.slotTime == None
    ensures PayloadV2(t, s).Ok?
  {
    SameMembers(Sort(s, BySequence), s);
    AllStopTextsOk(Sort(s, BySequence));
  }

  lemma TiedDiffer()
    ensures !TiesAgree(TIED) && TiesAgree([TIED[0], TIED[0]])
  {
    assert TIED[0].sequence == TIED[1].sequence && FactOf(TIED[0]) != FactOf(TIED[1]);
  }

  /** Two different stops with sequence 1, and two equal ones. */
  lemma TiedStops(t: Trip)
    requires PayloadV1(t).Ok?
    ensures PayloadV2(t, TIED).Ok? && !OrderFree(t, TIED)
    ensures PayloadV2(t, [TIED[0], TIED[0]]).Ok? && OrderFree(t, [TIED[0], TIED[0]])
  {
    SlotlessOk(t, TIED);
    SlotlessOk(t, [TIED[0], TIED[0]]);
    OrderFreeIff(t, TIED);
    OrderFreeIff(t, [TIED[0], TIED[0]]);
    TiedDiffer();
  }
}

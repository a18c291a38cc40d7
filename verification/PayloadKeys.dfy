/** What a journey lock says under each of its keys. */
module PayloadKeys {
  // The values are stated from the trip and its stops, key by key, without the intermediate texts.

  import opened Wrappers
  import opened Json
  import opened CanonicalJson
  import opened TextOrder
  import opened Sorting
  import opened Folds
  import opened Timestamps
  import opened JourneyLock
  import JourneyCommitment
  import StopOrder
  import Uuids

  /** The dict has that many keys, each once. */
  ghost predicate IsDict(v: Json, size: nat) { v.Obj? && |v.fields| == size && DistinctKeys(v.fields) }

  /** The key is bound to the value. */
  ghost predicate Under(v: Json, key: string, value: Json)
    requires v.Obj?
  {
    exists i :: 0 <= i < |v.fields| && v.fields[i] == (key, value)
  }

  // ---- Times ---------------------------------------------------------------------------------

  /** Microseconds from the start of year 1 in UTC; a naive time is in UTC already. */
  function UtcMicros(s: Datetime): int { Micros(s.civil) - match s.offset case None => 0 case Some(offset) => offset }

  /** The text of the same instant in UTC, or null. */
  ghost predicate IsUtcText(value: Json, time: Option<Datetime>) {
    match time
    case None => value == Null
    case Some(s) =>
      exists c: Civil :: ValidCivil(c) && Micros(c) == UtcMicros(s) && value == Str(IsoFormat(Stamp(c, Some(0))))
  }

  ghost predicate UnderTime(v: Json, key: string, time: Option<Datetime>)
    requires v.Obj?
  {
    exists i :: 0 <= i < |v.fields| && v.fields[i].0 == key && IsUtcText(v.fields[i].1, time)
  }

  /** The instant falls in the years 1 to 9999 of UTC. */
  predicate InRange(time: Option<Datetime>) {
    time.None? || 0 <= UtcMicros(time.value) < 3652059 * 86400000000
  }

  lemma UtcIsoIs(time: Option<Datetime>)
    ensures UtcIso(time).Ok? <==> InRange(time)
    ensures UtcIso(time).Ok? ==> IsUtcText(TextJson(UtcIso(time).value), time)
  {
    if time.Some? {
      var micros := Instant(time.value);
      assert micros == UtcMicros(time.value);
      if CivilOf(micros).Some? {
        CivilOfIsInverse(micros);
      }
    }
  }

  // ---- Ids and the manifest ------------------------------------------------------------------

  /** The texts of the ids, in order of their code points. */
  ghost predicate IsSortedIds(value: Json, ids: seq<Uuid>) {
    value.Arr? && exists texts: seq<string> ::
      && SortedBy(texts, TextLe) && multiset(texts) == multiset(Map(Uuids.Text, ids))
      && value.items == Map((s: string) => Str(s), texts)
  }

  lemma TrailersAre(ids: seq<Uuid>)
    ensures IsSortedIds(Arr(StrItems(Sort(UuidTexts(ids), TextLe))), ids)
  {
    var texts := Sort(UuidTexts(ids), TextLe);
    TextLeOrders();
    SortSorted(UuidTexts(ids), TextLe);
    assert UuidTexts(ids) == Map(Uuids.Text, ids);
    assert StrItems(texts) == Map((s: string) => Str(s), texts);
  }

  ghost predicate IsManifest(value: Json, manifest: Option<ManifestKey>) {
    match manifest
    case None => value == Null
    case Some(m) =>
      && IsDict(value, 3)
      && Under(value, "issuer_account", Str(m.issuerAccount))
      && Under(value, "origin_hub", Str(m.originHub))
      && Under(value, "number", Number(m.number))
  }

  lemma ManifestIs(manifest: Option<ManifestKey>)
    ensures IsManifest(ManifestJson(manifest), manifest)
  {
    if manifest.Some? {
      var f, m := ManifestJson(manifest).fields, manifest.value;
      DistinctBySignature(f, [14105, 10111, 6110]);
      assert f[0] == ("issuer_account", Str(m.issuerAccount));
      assert f[1] == ("origin_hub", Str(m.originHub));
      assert f[2] == ("number", Number(m.number));
    }
  }

  function TextOrNull(s: Option<string>): Json {
    match s
    case None => Null
    case Some(text) => Str(text)
  }

  // ---- The payload of version 1 --------------------------------------------------------------

  ghost predicate SaysIds(v: Json, t: Trip)
    requires v.Obj?
  {
    && Under(v, "trip_id", Str(Uuids.Text(t.tripId)))
    && Under(v, "driver_id", Str(Uuids.Text(t.driverId)))
    && Under(v, "horse_id", Str(Uuids.Text(t.horseId)))
    && Under(v, "origin_precinct_id", Str(Uuids.Text(t.originPrecinctId)))
    && Under(v, "destination_precinct_id", Str(Uuids.Text(t.destinationPrecinctId)))
    && Under(v, "created_by_user_id", Str(Uuids.Text(t.createdByUserId)))
    && exists i :: 0 <= i < |v.fields| && v.fields[i].0 == "trailers" && IsSortedIds(v.fields[i].1, t.trailerIds)
  }

  ghost predicate SaysRest(v: Json, t: Trip)
    requires v.Obj?
  {
    && UnderTime(v, "created_at", Some(t.createdAt))
    && UnderTime(v, "planned_departure_at", t.plannedDepartureAt)
    && UnderTime(v, "planned_arrival_at", t.plannedArrivalAt)
    && Under(v, "trip_type", Str(t.tripType))
    && Under(v, "pp_manifest_snapshot_sha256", TextOrNull(t.ppManifestSnapshotSha256))
    && exists i :: 0 <= i < |v.fields| && v.fields[i].0 == "pp_manifest" && IsManifest(v.fields[i].1, t.ppManifest)
  }

  /** A payload begins with the fields of the first version. */
  predicate Begins(v: Json, x: LockTexts) { v.Obj? && |v.fields| >= 13 && v.fields[..13] == V1Fields(x) }

  lemma FieldAt(v: Json, x: LockTexts, i: nat)
    requires Begins(v, x) && i < 13
    ensures v.fields[i] == V1Fields(x)[i]
  {
    assert v.fields[i] == v.fields[..13][i];
  }

  lemma UnderAt(v: Json, i: nat, key: string, value: Json)
    requires v.Obj? && i < |v.fields| && v.fields[i] == (key, value)
    ensures Under(v, key, value)
  {
  }

  lemma FirstIdTexts(v: Json, x: LockTexts)
    requires Begins(v, x)
    ensures Under(v, "trip_id", Str(x.tripId)) && Under(v, "driver_id", Str(x.driverId))
    ensures Under(v, "horse_id", Str(x.horseId)) && Under(v, "trailers", Arr(StrItems(x.trailers)))
  {
    FieldAt(v, x, 0);
    FieldAt(v, x, 1);
    FieldAt(v, x, 2);
    FieldAt(v, x, 3);
    UnderAt(v, 0, "trip_id", Str(x.tripId));
    UnderAt(v, 1, "driver_id", Str(x.driverId));
    UnderAt(v, 2, "horse_id", Str(x.horseId));
    UnderAt(v, 3, "trailers", Arr(StrItems(x.trailers)));
  }

  lemma OtherIdTexts(v: Json, x: LockTexts)
    requires Begins(v, x)
    ensures Under(v, "origin_precinct_id", Str(x.originPrecinctId))
    ensures Under(v, "destination_precinct_id", Str(x.destinationPrecinctId))
    ensures Under(v, "created_by_user_id", Str(x.createdByUserId))
  {
    FieldAt(v, x, 4);
    FieldAt(v, x, 5);
    FieldAt(v, x, 6);
    UnderAt(v, 4, "origin_precinct_id", Str(x.originPrecinctId));
    UnderAt(v, 5, "destination_precinct_id", Str(x.destinationPrecinctId));
    UnderAt(v, 6, "created_by_user_id", Str(x.createdByUserId));
  }

  lemma TimeTexts(v: Json, x: LockTexts)
    requires Begins(v, x)
    ensures Under(v, "created_at", TextJson(x.createdAt))
    ensures Under(v, "planned_departure_at", TextJson(x.plannedDepartureAt))
    ensures Under(v, "planned_arrival_at", TextJson(x.plannedArrivalAt))
  {
    FieldAt(v, x, 7);
    FieldAt(v, x, 11);
    FieldAt(v, x, 12);
    UnderAt(v, 7, "created_at", TextJson(x.createdAt));
    UnderAt(v, 11, "planned_departure_at", TextJson(x.plannedDepartureAt));
    UnderAt(v, 12, "planned_arrival_at", TextJson(x.plannedArrivalAt));
  }

  lemma OtherTexts(v: Json, x: LockTexts)
    requires Begins(v, x)
    ensures Under(v, "trip_type", Str(x.tripType)) && Under(v, "pp_manifest", ManifestJson(x.ppManifest))
    ensures Under(v, "pp_manifest_snapshot_sha256", TextJson(x.ppManifestSnapshotSha256))
  {
    FieldAt(v, x, 8);
    FieldAt(v, x, 9);
    FieldAt(v, x, 10);
    UnderAt(v, 8, "trip_type", Str(x.tripType));
    UnderAt(v, 9, "pp_manifest", ManifestJson(x.ppManifest));
    UnderAt(v, 10, "pp_manifest_snapshot_sha256", TextJson(x.ppManifestSnapshotSha256));
  }

  lemma IdTexts(t: Trip, x: LockTexts)
    requires TextsOf(t) == Ok(x)
    ensures x.tripId == Uuids.Text(t.tripId) && x.driverId == Uuids.Text(t.driverId)
    ensures x.horseId == Uuids.Text(t.horseId) && x.trailers == Sort(UuidTexts(t.trailerIds), TextLe)
    ensures x.originPrecinctId == Uuids.Text(t.originPrecinctId)
    ensures x.destinationPrecinctId == Uuids.Text(t.destinationPrecinctId)
    ensures x.createdByUserId == Uuids.Text(t.createdByUserId)
  {
  }

  lemma RestTexts(t: Trip, x: LockTexts)
    requires TextsOf(t) == Ok(x)
    ensures UtcIso(Some(t.createdAt)) == Ok(x.createdAt)
    ensures UtcIso(t.plannedDepartureAt) == Ok(x.plannedDepartureAt)
    ensures UtcIso(t.plannedArrivalAt) == Ok(x.plannedArrivalAt)
    ensures x.tripType == t.tripType && x.ppManifest == t.ppManifest
    ensures x.ppManifestSnapshotSha256 == t.ppManifestSnapshotSha256
  {
  }

  lemma IdFields(v: Json, t: Trip, x: LockTexts)
    requires Begins(v, x) && TextsOf(t) == Ok(x)
    ensures SaysIds(v, t)
  {
    IdTexts(t, x);
    FirstIdTexts(v, x);
    OtherIdTexts(v, x);
    TrailersAre(t.trailerIds);
  }

  lemma TimeUnder(v: Json, key: string, text: Option<string>, time: Option<Datetime>)
    requires v.Obj? && Under(v, key, TextJson(text)) && UtcIso(time) == Ok(text)
    ensures UnderTime(v, key, time)
  {
    UtcIsoIs(time);
  }

  lemma RestFields(v: Json, t: Trip, x: LockTexts)
    requires Begins(v, x) && TextsOf(t) == Ok(x)
    ensures SaysRest(v, t)
  {
    RestTexts(t, x);
    TimeTexts(v, x);
    OtherTexts(v, x);
    TimeUnder(v, "created_at", x.createdAt, Some(t.createdAt));
    TimeUnder(v, "planned_departure_at", x.plannedDepartureAt, t.plannedDepartureAt);
    TimeUnder(v, "planned_arrival_at", x.plannedArrivalAt, t.plannedArrivalAt);
    ManifestIs(t.ppManifest);
  }

  lemma V1OkIff(t: Trip)
    ensures PayloadV1(t).Ok? <==>
              InRange(Some(t.createdAt)) && InRange(t.plannedDepartureAt) && InRange(t.plannedArrivalAt)
  {
    UtcIsoIs(Some(t.createdAt));
    UtcIsoIs(t.plannedDepartureAt);
    UtcIsoIs(t.plannedArrivalAt);
  }

  lemma V1IsFields(t: Trip)
    requires PayloadV1(t).Ok?
    ensures TextsOf(t).Ok? && PayloadV1(t).value == Obj(V1Fields(TextsOf(t).value))
  {
  }

  /** The payload exists exactly when all times have a UTC text. It has thirteen keys, and under each of
      them what the trip says. */
  lemma PayloadV1Says(t: Trip)
    ensures PayloadV1(t).Ok? <==>
              InRange(Some(t.createdAt)) && InRange(t.plannedDepartureAt) && InRange(t.plannedArrivalAt)
    ensures PayloadV1(t).Ok? ==>
              var v := PayloadV1(t).value; IsDict(v, 13) && SaysIds(v, t) && SaysRest(v, t)
  {
    V1OkIff(t);
    if PayloadV1(t).Ok? {
      V1IsFields(t);
      var v, x := PayloadV1(t).value, TextsOf(t).value;
      V1Keys(x);
      assert Begins(v, x) by {
        assert v.fields[..13] == v.fields;
      }
      IdFields(v, t, x);
      RestFields(v, t, x);
    }
  }

  // ---- The payload of version 2 --------------------------------------------------------------

  ghost predicate IsStop(value: Json, s: Stop) {
    && IsDict(value, 3)
    && Under(value, "sequence", Number(s.sequence))
    && Under(value, "precinct_id", Str(Uuids.Text(s.precinctId)))
    && UnderTime(value, "slot_time", s.slotTime)
  }

  /** The stops by rising sequence, those that share one in the order in which they came. */
  ghost predicate InSequence(ordered: seq<Stop>, stops: seq<Stop>) {
    && multiset(ordered) == multiset(stops)
    && (forall i, j :: 0 <= i < j < |ordered| ==> ordered[i].sequence <= ordered[j].sequence)
    && StopOrder.SameAtEach(JourneyCommitment.FactsOf(ordered), JourneyCommitment.FactsOf(stops))
  }

  ghost predicate AreStops(value: Json, stops: seq<Stop>) {
    value.Arr? && exists ordered: seq<Stop> ::
      && InSequence(ordered, stops) && |value.items| == |ordered|
      && forall i :: 0 <= i < |ordered| ==> IsStop(value.items[i], ordered[i])
  }

  lemma StopIs(s: Stop)
    requires StopTextsOf(s).Ok?
    ensures IsStop(StopJson(StopTextsOf(s).value), s)
  {
    var x := StopTextsOf(s).value;
    StopTextsAre(s, x);
    StopUnder(x);
    TimeUnder(StopJson(x), "slot_time", x.slotTime, s.slotTime);
  }

  lemma StopTextsAre(s: Stop, x: StopTexts)
    requires StopTextsOf(s) == Ok(x)
    ensures x.sequence == s.sequence && x.precinctId == Uuids.Text(s.precinctId) && UtcIso(s.slotTime) == Ok(x.slotTime)
  {
  }

  lemma StopUnder(x: StopTexts)
    ensures var v := StopJson(x);
            && IsDict(v, 3) && Under(v, "sequence", Number(x.sequence))
            && Under(v, "precinct_id", Str(x.precinctId)) && Under(v, "slot_time", TextJson(x.slotTime))
  {
    var v := StopJson(x);
    DistinctBySignature(v.fields, [8115, 11112, 9115]);
    UnderAt(v, 0, "sequence", Number(x.sequence));
    UnderAt(v, 1, "precinct_id", Str(x.precinctId));
    UnderAt(v, 2, "slot_time", TextJson(x.slotTime));
  }

  lemma SortedInSequence(stops: seq<Stop>)
    ensures InSequence(Sort(stops, BySequence), stops)
  {
    SortSorted(stops, BySequence);
    JourneyCommitment.SortFacts(stops);
    forall sequence
      ensures StopOrder.At(JourneyCommitment.FactsOf(Sort(stops, BySequence)), sequence)
           == StopOrder.At(JourneyCommitment.FactsOf(stops), sequence)
    {
      StopOrder.SortStable(JourneyCommitment.FactsOf(stops), sequence);
    }
  }

  lemma StopsAre(stops: seq<Stop>)
    requires AllStopTexts(Sort(stops, BySequence)).Ok?
    ensures AreStops(Arr(StopItems(AllStopTexts(Sort(stops, BySequence)).value)), stops)
  {
    var ordered := Sort(stops, BySequence);
    var value := Arr(StopItems(AllStopTexts(ordered).value));
    SortedInSequence(stops);
    forall i | 0 <= i < |ordered| ensures IsStop(value.items[i], ordered[i]) {
      JourneyCommitment.AllStopTextsAt(ordered, i);
      StopIs(ordered[i]);
    }
  }

  /** The second version has two further keys: its version, and the stops. */
  lemma PayloadV2Says(t: Trip, stops: seq<Stop>)
    requires PayloadV2(t, stops).Ok?
    ensures var v := PayloadV2(t, stops).value;
            && IsDict(v, 15) && SaysIds(v, t) && SaysRest(v, t)
            && Under(v, "payload_version", Number(2))
            && exists i :: 0 <= i < |v.fields| && v.fields[i].0 == "stops" && AreStops(v.fields[i].1, stops)
  {
    var v, x, texts := PayloadV2(t, stops).value, TextsOf(t).value, AllStopTexts(Sort(stops, BySequence)).value;
    V2Keys(x, texts);
    assert Begins(v, x) by {
      assert v.fields[..13] == V1Fields(x);
    }
    IdFields(v, t, x);
    RestFields(v, t, x);
    StopsAre(stops);
    assert v.fields[13] == ("payload_version", Number(2));
    assert v.fields[14] == ("stops", Arr(StopItems(texts)));
  }

  lemma {:induction false} StopTextsOk(stops: seq<Stop>)
    ensures AllStopTexts(stops).Ok? <==> forall s :: s in stops ==> InRange(s.slotTime)
  {
    JourneyCommitment.AllStopTextsOk(stops);
    forall s | s in stops ensures StopTextsOf(s).Ok? <==> InRange(s.slotTime) {
      UtcIsoIs(s.slotTime);
    }
  }

  /** It exists exactly when the first version does and the slots have a UTC text. */
  lemma PayloadV2OkIff(t: Trip, stops: seq<Stop>)
    ensures PayloadV2(t, stops).Ok? <==> PayloadV1(t).Ok? && forall s :: s in stops ==> InRange(s.slotTime)
  {
    var ordered := Sort(stops, BySequence);
    StopTextsOk(ordered);
    JourneyCommitment.SameMembers(stops, ordered);
  }
}

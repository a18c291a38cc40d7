/** The journey lock: what a trip commits to, as the payload that is hashed and anchored. */
module JourneyLock {
  // The hash of its canonical JSON stays uninterpreted; the texts it is fed are compared.

  import opened Wrappers
  import opened Json
  import opened CanonicalJson
  import opened TextOrder
  import opened Sorting
  import opened Timestamps
  import Uuids

  type Uuid = Uuids.Uuid

  datatype ManifestKey = ManifestKey(issuerAccount: string, originHub: string, number: int)

  datatype Stop = Stop(sequence: int, precinctId: Uuid, slotTime: Option<Datetime>)

  datatype Trip = Trip(
    tripId: Uuid, driverId: Uuid, horseId: Uuid, trailerIds: seq<Uuid>,
    originPrecinctId: Uuid, destinationPrecinctId: Uuid, createdByUserId: Uuid, createdAt: Datetime,
    tripType: string, ppManifest: Option<ManifestKey>, ppManifestSnapshotSha256: Option<string>,
    plannedDepartureAt: Option<Datetime>, plannedArrivalAt: Option<Datetime>)

  /** Conversion to UTC left the years that a datetime can hold. */
  datatype PayloadError = DateOutOfRange

  const PAYLOAD_VERSION_V2 := 2

  // ---- The texts of a payload ----------------------------------------------------------------

  /** The values of a v1 payload, as they are written. */
  datatype LockTexts = LockTexts(
    tripId: string, driverId: string, horseId: string, trailers: seq<string>,
    originPrecinctId: string, destinationPrecinctId: string, createdByUserId: string, createdAt: Option<string>,
    tripType: string, ppManifest: Option<ManifestKey>, ppManifestSnapshotSha256: Option<string>,
    plannedDepartureAt: Option<string>, plannedArrivalAt: Option<string>)

  datatype StopTexts = StopTexts(sequence: int, precinctId: string, slotTime: Option<string>)

  /** The UTC text of a time, absent when the time is; an error when there is none. */
  function UtcIso(value: Option<Datetime>): Result<Option<string>, PayloadError> {
    if value.None? then Ok(None)
    else
      var utc := ToUtc(value.value);
      if utc.None? then Err(DateOutOfRange)
      else
        CivilOfIsInverse(Instant(value.value));
        Ok(Some(IsoFormat(utc.value)))
  }

  function UuidTexts(ids: seq<Uuid>): (r: seq<string>)
    ensures |r| == |ids| && forall i :: 0 <= i < |ids| ==> r[i] == Uuids.Text(ids[i])
  {
    seq(|ids|, i requires 0 <= i < |ids| => Uuids.Text(ids[i]))
  }

  function TextsOf(t: Trip): Result<LockTexts, PayloadError> {
    var created, departure, arrival := UtcIso(Some(t.createdAt)), UtcIso(t.plannedDepartureAt),
        UtcIso(t.plannedArrivalAt);
    if created.Err? || departure.Err? || arrival.Err? then Err(DateOutOfRange)
    else Ok(LockTexts(
      Uuids.Text(t.tripId), Uuids.Text(t.driverId), Uuids.Text(t.horseId),
      Sort(UuidTexts(t.trailerIds), TextLe),
      Uuids.Text(t.originPrecinctId), Uuids.Text(t.destinationPrecinctId), Uuids.Text(t.createdByUserId), created.value,
      t.tripType, t.ppManifest, t.ppManifestSnapshotSha256, departure.value, arrival.value))
  }

  predicate BySequence(s: Stop, t: Stop) { s.sequence <= t.sequence }

  function StopTextsOf(s: Stop): Result<StopTexts, PayloadError> {
    var slot := UtcIso(s.slotTime);
    if slot.Err? then Err(slot.error) else Ok(StopTexts(s.sequence, Uuids.Text(s.precinctId), slot.value))
  }

  function AllStopTexts(stops: seq<Stop>): (r: Result<seq<StopTexts>, PayloadError>)
    ensures r.Ok? ==> |r.value| == |stops|
  {
    if stops == [] then Ok([])
    else
      var first, rest := StopTextsOf(stops[0]), AllStopTexts(stops[1..]);
      if first.Err? then Err(first.error)
      else if rest.Err? then rest
      else Ok([first.value] + rest.value)
  }

  // ---- The payload -----------------------------------------------------------------------------

  function TextJson(s: Option<string>): Json { if s.None? then Null else Str(s.value) }

  function StrItems(texts: seq<string>): (r: seq<Json>)
    ensures |r| == |texts| && forall i :: 0 <= i < |texts| ==> r[i] == Str(texts[i])
  {
    seq(|texts|, i requires 0 <= i < |texts| => Str(texts[i]))
  }

  function ManifestJson(m: Option<ManifestKey>): Json {
    if m.None? then Null
    else Obj([("issuer_account", Str(m.value.issuerAccount)),
              ("origin_hub", Str(m.value.originHub)),
              ("number", Number(m.value.number))])
  }

  function V1Fields(x: LockTexts): (f: seq<Field>)
    ensures |f| == 13
  {
    [("trip_id", Str(x.tripId)),
     ("driver_id", Str(x.driverId)),
     ("horse_id", Str(x.horseId)),
     ("trailers", Arr(StrItems(x.trailers))),
     ("origin_precinct_id", Str(x.originPrecinctId)),
     ("destination_precinct_id", Str(x.destinationPrecinctId)),
     ("created_by_user_id", Str(x.createdByUserId)),
     ("created_at", TextJson(x.createdAt)),
     ("trip_type", Str(x.tripType)),
     ("pp_manifest", ManifestJson(x.ppManifest)),
     ("pp_manifest_snapshot_sha256", TextJson(x.ppManifestSnapshotSha256)),
     ("planned_departure_at", TextJson(x.plannedDepartureAt)),
     ("planned_arrival_at", TextJson(x.plannedArrivalAt))]
  }

  /** The v1 payload: a fixed set of keys, null where a value is absent. */
  function PayloadV1(t: Trip): Result<Json, PayloadError> {
    var x := TextsOf(t);
    if x.Err? then Err(x.error) else Ok(Obj(V1Fields(x.value)))
  }

  function StopJson(s: StopTexts): Json {
    Obj([("sequence", Number(s.sequence)), ("precinct_id", Str(s.precinctId)), ("slot_time", TextJson(s.slotTime))])
  }

  function StopItems(stops: seq<StopTexts>): (r: seq<Json>)
    ensures |r| == |stops| && forall i :: 0 <= i < |stops| ==> r[i] == StopJson(stops[i])
  {
    seq(|stops|, i requires 0 <= i < |stops| => StopJson(stops[i]))
  }

  function V2Fields(x: LockTexts, stops: seq<StopTexts>): (f: seq<Field>)
    ensures |f| == 15
  {
    V1Fields(x) + [("payload_version", Number(PAYLOAD_VERSION_V2)), ("stops", Arr(StopItems(stops)))]
  }

  /** The v2 payload: the v1 payload with its version and the stops in order of sequence. */
  function PayloadV2(t: Trip, stops: seq<Stop>): Result<Json, PayloadError> {
    var x, texts := TextsOf(t), AllStopTexts(Sort(stops, BySequence));
    if x.Err? then Err(x.error)
    else if texts.Err? then Err(texts.error)
    else Ok(Obj(V2Fields(x.value, texts.value)))
  }

  // ---- Keys ------------------------------------------------------------------------------------

  /** Length and first letter tell all keys of a payload apart. */
  function Signature(key: string): int
    requires key != ""
  {
    |key| * 1000 + key[0] as int
  }

  lemma DistinctBySignature(fields: seq<Field>, signatures: seq<int>)
    requires |signatures| == |fields|
    requires forall i :: 0 <= i < |fields| ==> fields[i].0 != "" && Signature(fields[i].0) == signatures[i]
    requires forall i, j :: 0 <= i < j < |signatures| ==> signatures[i] != signatures[j]
    ensures DistinctKeys(fields)
  {
    forall i, j | 0 <= i < j < |fields| ensures fields[i].0 != fields[j].0 {
      assert signatures[i] != signatures[j];
    }
  }

  const V2_SIGNATURES := [7116, 9100, 8104, 8116, 18111, 23100, 18099, 10099, 9116, 11112, 27112, 20112, 18112, 15112,
                          5115]

  lemma V1Signatures(x: LockTexts)
    ensures forall i :: 0 <= i < 13 ==> V1Fields(x)[i].0 != "" && Signature(V1Fields(x)[i].0) == V2_SIGNATURES[i]
  {
  }

  lemma V1Keys(x: LockTexts)
    ensures forall i :: 0 <= i < 13 ==> V1Fields(x)[i].0 != "" && Signature(V1Fields(x)[i].0) == V2_SIGNATURES[i]
    ensures DistinctKeys(V1Fields(x))
  {
    V1Signatures(x);
    DistinctBySignature(V1Fields(x), V2_SIGNATURES[..13]);
  }

  lemma V2Keys(x: LockTexts, stops: seq<StopTexts>)
    ensures forall i :: 0 <= i < 15 ==>
              V2Fields(x, stops)[i].0 != "" && Signature(V2Fields(x, stops)[i].0) == V2_SIGNATURES[i]
    ensures DistinctKeys(V2Fields(x, stops))
  {
    V1Keys(x);
    DistinctBySignature(V2Fields(x, stops), V2_SIGNATURES);
  }

  // ---- Equal payloads, value by value ----------------------------------------------------------

  /** With the same keys in the same places, dicts are equal exactly when all their values are. */
  lemma SameKeysIff(f: seq<Field>, g: seq<Field>)
    requires DistinctKeys(f) && DistinctKeys(g) && |f| == |g|
    requires forall i :: 0 <= i < |f| ==> f[i].0 == g[i].0
    ensures MeaningFields(f) == MeaningFields(g) <==> forall i :: 0 <= i < |f| ==> Meaning(f[i].1) == Meaning(g[i].1)
  {
    if MeaningFields(f) == MeaningFields(g) {
      forall i | 0 <= i < |f| ensures Meaning(f[i].1) == Meaning(g[i].1) {
        var j := Counterpart(f, g, i);
        assert g[j].0 == g[i].0;
      }
    }
    if forall i :: 0 <= i < |f| ==> Meaning(f[i].1) == Meaning(g[i].1) {
      forall key, value ensures Binds(f, key, value) <==> Binds(g, key, value) {
        if Binds(f, key, value) {
          var i :| 0 <= i < |f| && f[i].0 == key && Meaning(f[i].1) == value;
          assert g[i].0 == key;
        }
        if Binds(g, key, value) {
          var i :| 0 <= i < |g| && g[i].0 == key && Meaning(g[i].1) == value;
          assert f[i].0 == key;
        }
      }
      SameBindingsSameMap(f, g);
    }
  }

  lemma {:induction false} MeaningItemsAt(items: seq<Json>, i: nat)
    requires i < |items|
    ensures MeaningItems(items)[i] == Meaning(items[i])
  {
    if i > 0 {
      MeaningItemsAt(items[1..], i - 1);
    }
  }

  /** Lists are equal exactly when their items are. */
  lemma ItemsIff(a: seq<Json>, b: seq<Json>)
    ensures MeaningItems(a) == MeaningItems(b)
        <==> |a| == |b| && forall i :: 0 <= i < |a| ==> Meaning(a[i]) == Meaning(b[i])
  {
    if |a| == |b| {
      forall i | 0 <= i < |a| ensures MeaningItems(a)[i] == Meaning(a[i]) && MeaningItems(b)[i] == Meaning(b[i]) {
        MeaningItemsAt(a, i);
        MeaningItemsAt(b, i);
      }
    } else {
      assert |MeaningItems(a)| != |MeaningItems(b)|;
    }
  }

  lemma {:induction false} FieldsPythonFromAll(fields: seq<Field>)
    requires forall i :: 0 <= i < |fields| ==> IsPython(fields[i].1)
    ensures FieldsPython(fields)
  {
    if fields != [] {
      assert forall i :: 0 <= i < |fields| - 1 ==> fields[1..][i] == fields[i + 1];
      FieldsPythonFromAll(fields[1..]);
    }
  }

  lemma {:induction false} ArePythonFromAll(items: seq<Json>)
    requires forall i :: 0 <= i < |items| ==> IsPython(items[i])
    ensures ArePython(items)
  {
    if items != [] {
      ArePythonFromAll(items[1..]);
    }
  }

  lemma StrItemsIff(s: seq<string>, t: seq<string>)
    ensures MeaningItems(StrItems(s)) == MeaningItems(StrItems(t)) <==> s == t
    ensures ArePython(StrItems(s))
  {
    ItemsIff(StrItems(s), StrItems(t));
    ArePythonFromAll(StrItems(s));
    if MeaningItems(StrItems(s)) == MeaningItems(StrItems(t)) {
      forall i | 0 <= i < |s| ensures s[i] == t[i] {
        assert Meaning(StrItems(s)[i]) == StrValue(s[i]);
      }
    }
  }

  lemma ManifestIff(a: Option<ManifestKey>, b: Option<ManifestKey>)
    ensures Meaning(ManifestJson(a)) == Meaning(ManifestJson(b)) <==> a == b
    ensures IsPython(ManifestJson(a))
  {
    if a.Some? {
      DistinctBySignature(ManifestJson(a).fields, [14105, 10111, 6110]);
      FieldsPythonFromAll(ManifestJson(a).fields);
    }
    if a.Some? && b.Some? {
      DistinctBySignature(ManifestJson(b).fields, [14105, 10111, 6110]);
      SameKeysIff(ManifestJson(a).fields, ManifestJson(b).fields);
      assert ManifestJson(a).fields[0].1 == Str(a.value.issuerAccount);
      assert ManifestJson(a).fields[1].1 == Str(a.value.originHub);
      assert ManifestJson(a).fields[2].1 == Number(a.value.number);
    }
  }

  lemma StopIff(s: StopTexts, t: StopTexts)
    ensures Meaning(StopJson(s)) == Meaning(StopJson(t)) <==> s == t
    ensures IsPython(StopJson(s))
  {
    var f, g := StopJson(s).fields, StopJson(t).fields;
    DistinctBySignature(f, [8115, 11112, 9115]);
    DistinctBySignature(g, [8115, 11112, 9115]);
    FieldsPythonFromAll(f);
    SameKeysIff(f, g);
    assert f[0].1 == Number(s.sequence) && f[1].1 == Str(s.precinctId) && f[2].1 == TextJson(s.slotTime);
  }

  lemma StopItemsIff(a: seq<StopTexts>, b: seq<StopTexts>)
    ensures MeaningItems(StopItems(a)) == MeaningItems(StopItems(b)) <==> a == b
    ensures ArePython(StopItems(a))
  {
    ItemsIff(StopItems(a), StopItems(b));
    forall i | 0 <= i < |a| ensures IsPython(StopItems(a)[i]) {
      StopIff(a[i], a[i]);
    }
    ArePythonFromAll(StopItems(a));
    if |a| == |b| {
      forall i | 0 <= i < |a| ensures Meaning(StopItems(a)[i]) == Meaning(StopItems(b)[i]) <==> a[i] == b[i] {
        StopIff(a[i], b[i]);
      }
    }
  }

  lemma V1ValuesIff(x: LockTexts, y: LockTexts)
    ensures (forall i :: 0 <= i < 13 ==> Meaning(V1Fields(x)[i].1) == Meaning(V1Fields(y)[i].1)) <==> x == y
  {
    StrItemsIff(x.trailers, y.trailers);
    ManifestIff(x.ppManifest, y.ppManifest);
    if forall i :: 0 <= i < 13 ==> Meaning(V1Fields(x)[i].1) == Meaning(V1Fields(y)[i].1) {
      IdsDetermined(x, y);
      TimesDetermined(x, y);
    }
  }

  lemma IdsDetermined(x: LockTexts, y: LockTexts)
    requires forall i :: 0 <= i < 7 ==> Meaning(V1Fields(x)[i].1) == Meaning(V1Fields(y)[i].1)
    ensures x.tripId == y.tripId && x.driverId == y.driverId && x.horseId == y.horseId && x.trailers == y.trailers
    ensures x.originPrecinctId == y.originPrecinctId && x.destinationPrecinctId == y.destinationPrecinctId
    ensures x.createdByUserId == y.createdByUserId
  {
    var f, g := V1Fields(x), V1Fields(y);
    StrItemsIff(x.trailers, y.trailers);
    assert Meaning(f[0].1) == Meaning(g[0].1) && Meaning(f[1].1) == Meaning(g[1].1)
        && Meaning(f[2].1) == Meaning(g[2].1);
    assert Meaning(f[3].1) == Meaning(g[3].1) && Meaning(f[4].1) == Meaning(g[4].1)
        && Meaning(f[5].1) == Meaning(g[5].1);
    assert Meaning(f[6].1) == Meaning(g[6].1);
  }

  lemma TimesDetermined(x: LockTexts, y: LockTexts)
    requires forall i :: 7 <= i < 13 ==> Meaning(V1Fields(x)[i].1) == Meaning(V1Fields(y)[i].1)
    ensures x.createdAt == y.createdAt && x.tripType == y.tripType && x.ppManifest == y.ppManifest
    ensures x.ppManifestSnapshotSha256 == y.ppManifestSnapshotSha256
    ensures x.plannedDepartureAt == y.plannedDepartureAt && x.plannedArrivalAt == y.plannedArrivalAt
  {
    var f, g := V1Fields(x), V1Fields(y);
    ManifestIff(x.ppManifest, y.ppManifest);
    assert Meaning(f[7].1) == Meaning(g[7].1) && Meaning(f[8].1) == Meaning(g[8].1)
        && Meaning(f[9].1) == Meaning(g[9].1);
    assert Meaning(f[10].1) == Meaning(g[10].1) && Meaning(f[11].1) == Meaning(g[11].1)
        && Meaning(f[12].1) == Meaning(g[12].1);
  }

  lemma V1Python(x: LockTexts)
    ensures forall i :: 0 <= i < 13 ==> IsPython(V1Fields(x)[i].1)
    ensures IsPython(Obj(V1Fields(x)))
  {
    StrItemsIff(x.trailers, x.trailers);
    ManifestIff(x.ppManifest, x.ppManifest);
    V1Keys(x);
    FieldsPythonFromAll(V1Fields(x));
  }

  lemma V2Python(x: LockTexts, stops: seq<StopTexts>)
    ensures IsPython(Obj(V2Fields(x, stops)))
  {
    V1Python(x);
    StopItemsIff(stops, stops);
    V2Keys(x, stops);
    FieldsPythonFromAll(V2Fields(x, stops));
  }

  /** Dicts with the same keys have the same text exactly when all their values are equal. */
  lemma DictTextIff(f: seq<Field>, g: seq<Field>)
    requires IsPython(Obj(f)) && IsPython(Obj(g)) && |f| == |g|
    requires forall i :: 0 <= i < |f| ==> f[i].0 == g[i].0
    ensures CanonicalText(Obj(f)) == CanonicalText(Obj(g))
            <==> forall i :: 0 <= i < |f| ==> Meaning(f[i].1) == Meaning(g[i].1)
  {
    CanonicalIff(Obj(f), Obj(g));
    SameKeysIff(f, g);
  }

  /** Dicts differ in their text when one has a key that the other lacks. */
  lemma ExtraKeyDiffers(f: seq<Field>, g: seq<Field>, j: nat)
    requires IsPython(Obj(f)) && IsPython(Obj(g)) && j < |g|
    requires forall i :: 0 <= i < |f| ==> f[i].0 != g[j].0
    ensures CanonicalText(Obj(f)) != CanonicalText(Obj(g))
  {
    CanonicalIff(Obj(f), Obj(g));
    MeaningLookup(f, g[j].0, Meaning(g[j].1));
    MeaningLookup(g, g[j].0, Meaning(g[j].1));
    assert Binds(g, g[j].0, Meaning(g[j].1)) && !Binds(f, g[j].0, Meaning(g[j].1));
  }

  lemma V1TextIff(x: LockTexts, y: LockTexts)
    ensures CanonicalText(Obj(V1Fields(x))) == CanonicalText(Obj(V1Fields(y))) <==> x == y
  {
    V1Python(x);
    V1Python(y);
    V1ValuesIff(x, y);
    SameV1Keys(x, y);
    DictTextIff(V1Fields(x), V1Fields(y));
  }

  lemma SameV1Keys(x: LockTexts, y: LockTexts)
    ensures forall i :: 0 <= i < 13 ==> V1Fields(x)[i].0 == V1Fields(y)[i].0
  {
  }

  lemma SameV2Keys(x: LockTexts, s: seq<StopTexts>, y: LockTexts, t: seq<StopTexts>)
    ensures forall i :: 0 <= i < 15 ==> V2Fields(x, s)[i].0 == V2Fields(y, t)[i].0
  {
    SameV1Keys(x, y);
  }

  lemma V2ValuesIff(x: LockTexts, s: seq<StopTexts>, y: LockTexts, t: seq<StopTexts>)
    ensures (forall i :: 0 <= i < 15 ==> Meaning(V2Fields(x, s)[i].1) == Meaning(V2Fields(y, t)[i].1))
            <==> x == y && s == t
  {
    var f, g := V2Fields(x, s), V2Fields(y, t);
    V1ValuesIff(x, y);
    StopItemsIff(s, t);
    assert forall i :: 0 <= i < 13 ==> f[i] == V1Fields(x)[i] && g[i] == V1Fields(y)[i];
    assert f[13].1 == g[13].1;
    assert Meaning(f[14].1) == ListValue(MeaningItems(StopItems(s)))
        && Meaning(g[14].1) == ListValue(MeaningItems(StopItems(t)));
  }

  lemma V2TextIff(x: LockTexts, s: seq<StopTexts>, y: LockTexts, t: seq<StopTexts>)
    ensures CanonicalText(Obj(V2Fields(x, s))) == CanonicalText(Obj(V2Fields(y, t))) <==> x == y && s == t
  {
    V2Python(x, s);
    V2Python(y, t);
    V2ValuesIff(x, s, y, t);
    SameV2Keys(x, s, y, t);
    DictTextIff(V2Fields(x, s), V2Fields(y, t));
  }

  lemma GenerationTextsDiffer(x: LockTexts, y: LockTexts, t: seq<StopTexts>)
    ensures CanonicalText(Obj(V1Fields(x))) != CanonicalText(Obj(V2Fields(y, t)))
  {
    V1Python(x);
    V2Python(y, t);
    V1Keys(x);
    V2Keys(y, t);
    assert forall i :: 0 <= i < 13 ==> V2_SIGNATURES[i] != V2_SIGNATURES[13];
    ExtraKeyDiffers(V1Fields(x), V2Fields(y, t), 13);
  }
}

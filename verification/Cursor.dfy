/**
 The opaque cursor of keyset pagination: a row's position as compact JSON in URL-safe base64.
 */
module Cursor {
  import opened RawBytes
  import opened Wrappers
  import opened Json
  import opened Numerals
  import opened Timestamps
  import Base64
  import Uuids

  datatype Position = Position(createdAt: Datetime, id: Uuids.Uuid)

  /** One error for every malformed cursor. */
  datatype CursorError = InvalidCursor

  const MAX_CURSOR_LENGTH := 512

  predicate AllAscii(text: string) { forall i :: 0 <= i < |text| ==> text[i] as int < 128 }

  function ToByte(c: char): Byte
    requires c as int < 128
  {
    c as int
  }

  function ToBytes(text: string): (bytes: seq<Byte>)
    requires AllAscii(text)
    ensures |bytes| == |text| && forall i :: 0 <= i < |text| ==> bytes[i] == text[i] as int
  {
    seq(|text|, i requires 0 <= i < |text| => ToByte(text[i]))
  }

  function FromBytes(bytes: seq<Byte>): (text: string)
    ensures |text| == |bytes| && forall i :: 0 <= i < |text| ==> text[i] == bytes[i] as char
  {
    seq(|bytes|, i requires 0 <= i < |bytes| => bytes[i] as char)
  }

  // ---- Plain text inside JSON ------------------------------------------------------------------

  /** A character that JSON writes as itself. */
  predicate Plain(c: char) { 0x20 <= c as int <= 0x7E && c != '"' && c != '\\' }

  predicate AllPlain(s: string) { forall c :: c in s ==> Plain(c) }

  lemma CharPlain(c: char)
    requires Plain(c)
    ensures Escape(c) == [c]
  {
  }

  lemma {:induction false} EscapePlain(s: string)
    requires AllPlain(s)
    ensures EscapeAll(s) == s
  {
    if s != "" {
      assert forall c :: c in s[1..] ==> c in s;
      CharPlain(s[0]);
      EscapePlain(s[1..]);
      assert s == [s[0]] + s[1..];
    }
  }

  lemma {:induction false} FixedPlain(n: nat, w: nat, base: Base)
    ensures AllPlain(Fixed(n, w, base))
  {
    if w > 0 {
      FixedPlain(Quotient(n, base), w - 1, base);
      DigitPlain(LastDigit(n, base));
    }
  }

  lemma DigitPlain(d: nat)
    requires d < 16
    ensures Plain(Digit(d))
  {
    DigitRoundTrip(d);
  }

  lemma UuidPlain(u: Uuids.Uuid)
    ensures AllPlain(Uuids.Text(u))
  {
    FixedPlain(u, 32, 16);
  }

  lemma SecondsPlain(t: nat)
    ensures AllPlain(Seconds(t)) && |Seconds(t)| <= 9
  {
    FixedPlain(t / SECOND % 60, 2, 10);
    FixedPlain(t % SECOND, 6, 10);
  }

  lemma HourMinutePlain(t: nat)
    ensures AllPlain(HourMinute(t)) && |HourMinute(t)| == 5
  {
    FixedPlain(t / HOUR, 2, 10);
    FixedPlain(t / MINUTE % 60, 2, 10);
  }

  lemma OffsetPlain(offset: Option<int>)
    ensures AllPlain(OffsetText(offset)) && |OffsetText(offset)| <= 16
  {
    if offset.Some? {
      SignedPlain(OffsetText(offset), Sign(offset.value), if offset.value < 0 then -offset.value else offset.value);
    }
  }

  lemma SignedPlain(text: string, sign: char, size: nat)
    requires (sign == '-' || sign == '+') && text == [sign] + SizeText(size)
    ensures AllPlain(text) && |text| <= 16
  {
    SizePlain(size);
  }

  lemma SizePlain(size: nat)
    ensures AllPlain(SizeText(size)) && |SizeText(size)| <= 15
  {
    HourMinutePlain(size);
    SecondsPlain(size);
  }

  lemma DatePlain(c: Civil)
    requires ValidCivil(c)
    ensures AllPlain(DateText(c)) && |DateText(c)| == 10
  {
    FixedPlain(c.year, 4, 10);
    FixedPlain(c.month, 2, 10);
    FixedPlain(c.day, 2, 10);
  }

  lemma IsoPlain(s: Stamp)
    requires ValidStamp(s)
    ensures AllPlain(IsoFormat(s)) && |IsoFormat(s)| <= 42
  {
    DatePlain(s.civil);
    HourMinutePlain(s.civil.micros);
    SecondsPlain(s.civil.micros);
    OffsetPlain(s.offset);
  }

  // ---- Encoding ----------------------------------------------------------------------------------

  function Payload(created: string, id: string): Json {
    Obj([("created_at", Str(created)), ("id", Str(id))])
  }

  /** An item of two plain texts. */
  function Item(key: string, value: string): string { "\"" + key + "\":\"" + value + "\"" }

  lemma PlainAscii(s: string)
    requires AllPlain(s)
    ensures AllAscii(s)
  {
    forall i | 0 <= i < |s| ensures s[i] as int < 128 {
      assert Plain(s[i]);
    }
  }

  lemma ItemText(key: string, value: string)
    requires AllPlain(key) && AllPlain(value)
    ensures DumpField((key, Str(value))) == Item(key, value)
    ensures |Item(key, value)| == |key| + |value| + 5 && AllAscii(Item(key, value))
  {
    EscapePlain(key);
    EscapePlain(value);
    QuotedAscii(key);
    QuotedAscii(value);
    ItemIs(key, value);
    JoinAscii(Quoted(key), ":");
    JoinAscii(Quoted(key) + ":", Quoted(value));
  }

  function Quoted(s: string): string { "\"" + s + "\"" }

  lemma ItemIs(key: string, value: string)
    ensures Item(key, value) == Quoted(key) + ":" + Quoted(value)
  {
  }

  lemma QuotedAscii(s: string)
    requires AllPlain(s)
    ensures AllAscii(Quoted(s))
  {
    PlainAscii(s);
    JoinAscii("\"", s);
    JoinAscii("\"" + s, "\"");
  }

  lemma TwoFields(f: (string, Json), g: (string, Json))
    ensures Dump(Obj([f, g])) == "{" + (DumpField(f) + ("," + (DumpField(g) + "}")))
  {
    assert [f, g][1..] == [g];
    assert DumpFields([g]) == DumpField(g);
  }

  lemma JoinAscii(s: string, t: string)
    requires AllAscii(s) && AllAscii(t)
    ensures AllAscii(s + t)
  {
  }

  lemma ItemsJoin(a: string, b: string)
    requires AllAscii(a) && AllAscii(b)
    ensures var text := "{" + (a + ("," + (b + "}")));
            AllAscii(text) && |text| == |a| + |b| + 3
  {
    JoinAscii(b, "}");
    JoinAscii(",", b + "}");
    JoinAscii(a, "," + (b + "}"));
    JoinAscii("{", a + ("," + (b + "}")));
  }

  lemma PayloadText(f: (string, Json), g: (string, Json), created: string, id: string)
    requires AllPlain(f.0) && AllPlain(g.0) && AllPlain(created) && AllPlain(id)
    requires f.1 == Str(created) && g.1 == Str(id)
    ensures AllAscii(Dump(Obj([f, g])))
    ensures |Dump(Obj([f, g]))| == |f.0| + |g.0| + |created| + |id| + 13
  {
    ItemText(f.0, created);
    ItemText(g.0, id);
    TwoFields(f, g);
    ItemsJoin(Item(f.0, created), Item(g.0, id));
  }

  lemma PayloadIsAscii(created: string, id: string)
    requires AllPlain(created) && AllPlain(id)
    ensures AllAscii(Dump(Payload(created, id)))
    ensures |Dump(Payload(created, id))| == 25 + |created| + |id|
  {
    PayloadText(("created_at", Str(created)), ("id", Str(id)), created, id);
  }

  /** encode_cursor. */
  function EncodeCursor(p: Position): string {
    IsoPlain(p.createdAt);
    UuidPlain(p.id);
    PayloadIsAscii(IsoFormat(p.createdAt), Uuids.Text(p.id));
    Base64.Encode(ToBytes(Dump(Payload(IsoFormat(p.createdAt), Uuids.Text(p.id)))))
  }

  // ---- Decoding ----------------------------------------------------------------------------------

  /** The value of the last item under the key, as a dict keeps it. */
  function LastUnder(fields: seq<(string, Json)>, key: string): Option<Json> {
    if fields == [] then None
    else if fields[|fields| - 1].0 == key then Some(fields[|fields| - 1].1)
    else LastUnder(fields[..|fields| - 1], key)
  }

  function Keys(fields: seq<(string, Json)>): set<string> { set f | f in fields :: f.0 }

  /** decode_cursor. */
  function DecodeCursor(value: string): Result<Position, CursorError> {
    if |value| > MAX_CURSOR_LENGTH then Err(InvalidCursor) else
    var bytes := Base64.Decode(Base64.Translate(value));
    if bytes.None? then Err(InvalidCursor) else
    if exists i :: 0 <= i < |bytes.value| && bytes.value[i] >= 128 then Err(InvalidCursor) else
    var payload := Load(FromBytes(bytes.value));
    if payload.None? || !payload.value.Obj? then Err(InvalidCursor) else
    if Keys(payload.value.fields) != {"created_at", "id"} then Err(InvalidCursor) else
    var created, id := LastUnder(payload.value.fields, "created_at"), LastUnder(payload.value.fields, "id");
    if created.None? || !created.value.Str? || id.None? || !id.value.Str? then Err(InvalidCursor) else
    var createdAt := FromIsoFormat(created.value.s);
    if createdAt.None? || createdAt.value.offset.None? then Err(InvalidCursor) else
    var rowId := Uuids.Parse(id.value.s);
    if rowId.None? then Err(InvalidCursor) else Ok(Position(createdAt.value, rowId.value))
  }

  /** The fields of the JSON text in the cursor. */
  function FieldsOf(value: string): Option<seq<(string, Json)>> {
    var bytes := Base64.Decode(Base64.Translate(value));
    if bytes.None? || (exists i :: 0 <= i < |bytes.value| && bytes.value[i] >= 128) then None else
    var payload := Load(FromBytes(bytes.value));
    if payload.None? || !payload.value.Obj? then None else Some(payload.value.fields)
  }

  /** The position that fields say, as the decoder reads them. */
  function ReadPosition(fields: seq<(string, Json)>): Option<Position> {
    if Keys(fields) != {"created_at", "id"} then None else
    var created, id := LastUnder(fields, "created_at"), LastUnder(fields, "id");
    if created.None? || !created.value.Str? || id.None? || !id.value.Str? then None else
    var createdAt, rowId := FromIsoFormat(created.value.s), Uuids.Parse(id.value.s);
    if createdAt.None? || createdAt.value.offset.None? || rowId.None? then None
    else Some(Position(createdAt.value, rowId.value))
  }

  lemma DecodeIs(value: string)
    ensures DecodeCursor(value)
         == if |value| > 512 || FieldsOf(value).None? || ReadPosition(FieldsOf(value).value).None?
            then Err(InvalidCursor)
            else Ok(ReadPosition(FieldsOf(value).value).value)
  {
  }

  // ---- Round trip --------------------------------------------------------------------------------

  lemma BytesRoundTrip(text: string)
    requires AllAscii(text)
    ensures FromBytes(ToBytes(text)) == text
  {
  }

  /** The length guard never rejects a genuine cursor. */
  lemma CursorLength(p: Position)
    ensures |EncodeCursor(p)| <= 140 < MAX_CURSOR_LENGTH
  {
    var created, id := IsoFormat(p.createdAt), Uuids.Text(p.id);
    IsoPlain(p.createdAt);
    UuidPlain(p.id);
    PayloadIsAscii(created, id);
    Base64.EncodedLength(ToBytes(Dump(Payload(created, id))));
  }

  lemma PayloadFields(created: string, id: string)
    ensures var fields := Payload(created, id).fields;
            && Keys(fields) == {"created_at", "id"}
            && LastUnder(fields, "created_at") == Some(Str(created))
            && LastUnder(fields, "id") == Some(Str(id))
  {
    var fields := Payload(created, id).fields;
    assert fields[..1] == [("created_at", Str(created))];
    assert fields[0] in fields && fields[1] in fields;
    assert "created_at"[0] != "id"[0];
  }

  lemma EncodedFields(p: Position)
    ensures FieldsOf(EncodeCursor(p)) == Some(Payload(IsoFormat(p.createdAt), Uuids.Text(p.id)).fields)
  {
    var created, id := IsoFormat(p.createdAt), Uuids.Text(p.id);
    IsoPlain(p.createdAt);
    UuidPlain(p.id);
    PayloadIsAscii(created, id);
    Base64.RoundTrip(ToBytes(Dump(Payload(created, id))));
    BytesRoundTrip(Dump(Payload(created, id)));
    LoadDump(Payload(created, id));
  }

  lemma PayloadPosition(p: Position)
    ensures ReadPosition(Payload(IsoFormat(p.createdAt), Uuids.Text(p.id)).fields)
         == if p.createdAt.offset.Some? then Some(p) else None
  {
    PayloadFields(IsoFormat(p.createdAt), Uuids.Text(p.id));
    IsoRoundTrip(p.createdAt);
    Uuids.RoundTrip(p.id);
  }

  /** Decoding what was encoded gives the same position, for every time with an offset and every id;
      a naive time is refused. */
  lemma CursorRoundTrip(p: Position)
    ensures DecodeCursor(EncodeCursor(p)) == if p.createdAt.offset.Some? then Ok(p) else Err(InvalidCursor)
  {
    DecodeIs(EncodeCursor(p));
    CursorLength(p);
    EncodedFields(p);
    PayloadPosition(p);
  }

  // ---- What else is accepted ---------------------------------------------------------------------

  /** The text is the base64, in either alphabet, of an ASCII JSON text of these fields. */
  ghost predicate Carries(value: string, fields: seq<(string, Json)>) {
    exists text: string :: AllAscii(text) && Base64.Decode(Base64.Translate(value)) == Some(ToBytes(text))
      && Load(text) == Some(Obj(fields))
  }

  /** The last item under the key is a text. */
  ghost predicate SaysLast(fields: seq<(string, Json)>, key: string, text: string) {
    exists i :: 0 <= i < |fields| && fields[i] == (key, Str(text))
      && forall j :: i < j < |fields| ==> fields[j].0 != key
  }

  /** The fields bind the two keys and no other, the one to the time, which has an offset, and the other to
      the id. */
  ghost predicate SaysPosition(fields: seq<(string, Json)>, p: Position) {
    && (forall i :: 0 <= i < |fields| ==> fields[i].0 == "created_at" || fields[i].0 == "id")
    && (exists created :: SaysLast(fields, "created_at", created) && FromIsoFormat(created) == Some(p.createdAt))
    && (exists id :: SaysLast(fields, "id", id) && Uuids.Parse(id) == Some(p.id))
    && p.createdAt.offset.Some?
  }

  lemma {:induction false} LastUnderIs(fields: seq<(string, Json)>, key: string, text: string)
    ensures LastUnder(fields, key) == Some(Str(text)) <==> SaysLast(fields, key, text)
  {
    if fields != [] {
      var front, last := fields[..|fields| - 1], fields[|fields| - 1];
      LastUnderIs(front, key, text);
      if last.0 == key {
        assert last == fields[|fields| - 1];
      } else {
        if SaysLast(front, key, text) {
          var i :| 0 <= i < |front| && front[i] == (key, Str(text))
                   && forall j :: i < j < |front| ==> front[j].0 != key;
          assert fields[i] == front[i];
        }
        if SaysLast(fields, key, text) {
          var i :| 0 <= i < |fields| && fields[i] == (key, Str(text))
                   && forall j :: i < j < |fields| ==> fields[j].0 != key;
          assert front[i] == fields[i];
        }
      }
    }
  }

  lemma KeysIff(fields: seq<(string, Json)>)
    ensures Keys(fields) == {"created_at", "id"} <==>
              && (forall i :: 0 <= i < |fields| ==> fields[i].0 == "created_at" || fields[i].0 == "id")
              && "created_at" in Keys(fields) && "id" in Keys(fields)
  {
    if forall i :: 0 <= i < |fields| ==> fields[i].0 == "created_at" || fields[i].0 == "id" {
      assert Keys(fields) <= {"created_at", "id"};
    }
    if Keys(fields) == {"created_at", "id"} {
      forall i | 0 <= i < |fields| ensures fields[i].0 == "created_at" || fields[i].0 == "id" {
        assert fields[i] in fields && fields[i].0 in Keys(fields);
      }
    }
  }

  lemma SaidIsKey(fields: seq<(string, Json)>, key: string, text: string)
    requires SaysLast(fields, key, text)
    ensures key in Keys(fields)
  {
    var i :| 0 <= i < |fields| && fields[i] == (key, Str(text)) && forall j :: i < j < |fields| ==> fields[j].0 != key;
    assert fields[i] in fields;
  }

  lemma ReadPositionIff(fields: seq<(string, Json)>, p: Position)
    ensures ReadPosition(fields) == Some(p) <==> SaysPosition(fields, p)
  {
    KeysIff(fields);
    if ReadPosition(fields) == Some(p) {
      var created, id := LastUnder(fields, "created_at").value.s, LastUnder(fields, "id").value.s;
      LastUnderIs(fields, "created_at", created);
      LastUnderIs(fields, "id", id);
    }
    if SaysPosition(fields, p) {
      var created :| SaysLast(fields, "created_at", created) && FromIsoFormat(created) == Some(p.createdAt);
      var id :| SaysLast(fields, "id", id) && Uuids.Parse(id) == Some(p.id);
      LastUnderIs(fields, "created_at", created);
      LastUnderIs(fields, "id", id);
      SaidIsKey(fields, "created_at", created);
      SaidIsKey(fields, "id", id);
    }
  }

  lemma FieldsOfIff(value: string, fields: seq<(string, Json)>)
    ensures FieldsOf(value) == Some(fields) <==> Carries(value, fields)
  {
    if FieldsOf(value) == Some(fields) {
      var bytes := Base64.Decode(Base64.Translate(value)).value;
      var text := FromBytes(bytes);
      assert AllAscii(text) && ToBytes(text) == bytes;
    }
    if Carries(value, fields) {
      var text: string :| AllAscii(text) && Base64.Decode(Base64.Translate(value)) == Some(ToBytes(text))
        && Load(text) == Some(Obj(fields));
      BytesRoundTrip(text);
    }
  }

  /** A text is accepted exactly when it has at most 512 characters and carries a dict of the two keys alone
      that says a time with an offset and an id; anything else gets the one error. */
  lemma DecodeIff(value: string, p: Position)
    ensures DecodeCursor(value) == Ok(p) <==>
              |value| <= 512 && exists fields :: Carries(value, fields) && SaysPosition(fields, p)
  {
    DecodeIs(value);
    if FieldsOf(value).Some? {
      FieldsOfIff(value, FieldsOf(value).value);
      ReadPositionIff(FieldsOf(value).value, p);
    }
    if exists fields :: Carries(value, fields) && SaysPosition(fields, p) {
      var fields :| Carries(value, fields) && SaysPosition(fields, p);
      FieldsOfIff(value, fields);
      ReadPositionIff(fields, p);
    }
  }
}

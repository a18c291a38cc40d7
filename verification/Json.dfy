/**
 JSON texts as Python's json.dumps writes them, compact and ASCII only, and a reader for them that gets
 back exactly what was written. A string is a sequence of Unicode scalar values, so it has no lone
 surrogates.
 */
module Json {
  import opened Wrappers
  import opened Numerals

  /** A value; a dict is its items in insertion order. */
  datatype Json =
    | Null
    | Number(n: int)
    | Str(s: string)
    | Arr(items: seq<Json>)
    | Obj(fields: seq<(string, Json)>)

  // ---- Strings ---------------------------------------------------------------------------

  function Unit(n: nat): string { "\\u" + Fixed(n, 4, 16) }

  /** One character inside a JSON string (section 7 of RFC 8259). */
  function Escape(c: char): (s: string)
    ensures s != ""
  {
    var n := c as int;
    if c == '"' then "\\\""
    else if c == '\\' then "\\\\"
    else if c == '\n' then "\\n"
    else if c == '\r' then "\\r"
    else if c == '\t' then "\\t"
    else if n == 8 then "\\b"
    else if n == 12 then "\\f"
    else if 0x20 <= n <= 0x7E then [c]
    else if n < 0x10000 then Unit(n)
    else Unit(0xD800 + (n - 0x10000) / 0x400) + Unit(0xDC00 + (n - 0x10000) % 0x400)
  }

  function EscapeAll(s: string): string {
    if s == "" then "" else Escape(s[0]) + EscapeAll(s[1..])
  }

  function Quote(s: string): string { "\"" + EscapeAll(s) + "\"" }

  /** Four hexadecimal digits. */
  function ParseUnit(text: string): Option<nat> {
    if |text| < 4 then None else ParseFixed(text[..4], 16)
  }

  /** One character of a string, plain or escaped, and what follows it. */
  function ParseChar(text: string): (r: Option<(char, string)>)
    ensures r.Some? ==> |r.value.1| < |text|
  {
    if text == "" || text[0] == '"' || text[0] as int < 0x20 then None
    else if text[0] != '\\' then Some((text[0], text[1..]))
    else if |text| < 2 then None
    else
      var rest := text[2..];
      match text[1]
      case '"' => Some(('"', rest))
      case '\\' => Some(('\\', rest))
      case 'n' => Some(('\n', rest))
      case 'r' => Some(('\r', rest))
      case 't' => Some(('\t', rest))
      case 'b' => Some((8 as char, rest))
      case 'f' => Some((12 as char, rest))
      case 'u' => ParseEscapedUnit(rest)
      case _ => None
  }

  /** A \u escape after its first two characters: one unit, or a high and a low surrogate. */
  function ParseEscapedUnit(text: string): (r: Option<(char, string)>)
    ensures r.Some? ==> |r.value.1| < |text|
  {
    var high := ParseUnit(text);
    if high.None? then None
    else if high.value < 0xD800 || 0xE000 <= high.value < 0x10000 then Some((high.value as char, text[4..]))
    else if !(0xD800 <= high.value < 0xDC00) || !("\\u" <= text[4..]) then None
    else
      var low := ParseUnit(text[6..]);
      if low.None? || !(0xDC00 <= low.value < 0xE000) then None
      else Some(((0x10000 + (high.value - 0xD800) * 0x400 + (low.value - 0xDC00)) as char, text[10..]))
  }

  /** A string after its opening quote. */
  function ParseString(text: string): (r: Option<(string, string)>)
    ensures r.Some? ==> |r.value.1| < |text|
    decreases |text|
  {
    if text == "" then None
    else if text[0] == '"' then Some(("", text[1..]))
    else
      var c := ParseChar(text);
      if c.None? then None
      else
        var tail := ParseString(c.value.1);
        if tail.None? then None else Some(([c.value.0] + tail.value.0, tail.value.1))
  }

  // ---- Values ------------------------------------------------------------------------------

  function DumpNumber(n: int): string {
    if n < 0 then "-" + Decimal(-n) else Decimal(n)
  }

  /** json.dumps with compact separators. */
  function Dump(v: Json): string
    decreases v, 1
  {
    match v
    case Null => "null"
    case Number(n) => DumpNumber(n)
    case Str(s) => Quote(s)
    case Arr(items) => "[" + DumpItems(items) + "]"
    case Obj(fields) => "{" + DumpFields(fields) + "}"
  }

  function DumpItems(items: seq<Json>): string
    decreases items, 0
  {
    if items == [] then ""
    else Dump(items[0]) + if |items| == 1 then "" else "," + DumpItems(items[1..])
  }

  function DumpField(field: (string, Json)): string
    decreases field, 2
  {
    Quote(field.0) + ":" + Dump(field.1)
  }

  function DumpFields(fields: seq<(string, Json)>): string
    decreases fields, 0
  {
    if fields == [] then ""
    else DumpField(fields[0]) + if |fields| == 1 then "" else "," + DumpFields(fields[1..])
  }

  /** A value at the start of the text, and what follows it. */
  function ParseValue(text: string): (r: Option<(Json, string)>)
    ensures r.Some? ==> |r.value.1| < |text|
    decreases |text|, 0
  {
    if text == "" then None
    else if text[0] == '"' then
      var s := ParseString(text[1..]);
      if s.None? then None else Some((Str(s.value.0), s.value.1))
    else if text[0] == '[' then
      if "]" <= text[1..] then Some((Arr([]), text[2..]))
      else
        var items := ParseItems(text[1..]);
        if items.None? then None else Some((Arr(items.value.0), items.value.1))
    else if text[0] == '{' then
      if "}" <= text[1..] then Some((Obj([]), text[2..]))
      else
        var fields := ParseFields(text[1..]);
        if fields.None? then None else Some((Obj(fields.value.0), fields.value.1))
    else if text[0] == '-' then
      if |text| < 2 || !IsDigit(text[1], 10) then None
      else
        DecimalShrinks(0, text[1..]);
        var (n, rest) := ParseDecimal(0, text[1..]);
        Some((Number(0 - n), rest))
    else if IsDigit(text[0], 10) then
      DecimalShrinks(0, text);
      var (n, rest) := ParseDecimal(0, text);
      Some((Number(n), rest))
    else if "null" <= text then Some((Null, text[4..]))
    else None
  }

  lemma {:induction false} DecimalShrinks(before: nat, text: string)
    ensures |ParseDecimal(before, text).1| <= |text|
    ensures text != "" && IsDigit(text[0], 10) ==> |ParseDecimal(before, text).1| < |text|
    decreases |text|
  {
    if text != "" && IsDigit(text[0], 10) {
      DecimalShrinks(before * 10 + DigitValue(text[0]).value, text[1..]);
    }
  }

  /** The items of a non-empty array, with its closing bracket. */
  function ParseItems(text: string): (r: Option<(seq<Json>, string)>)
    ensures r.Some? ==> |r.value.1| < |text|
    decreases |text|, 1
  {
    var first := ParseValue(text);
    if first.None? || first.value.1 == "" then None
    else
      var (v, rest) := first.value;
      if rest[0] == ']' then Some(([v], rest[1..]))
      else if rest[0] != ',' then None
      else
        var more := ParseItems(rest[1..]);
        if more.None? then None else Some(([v] + more.value.0, more.value.1))
  }

  /** A key and its value. */
  function ParseField(text: string): (r: Option<((string, Json), string)>)
    ensures r.Some? ==> |r.value.1| < |text|
    decreases |text|, 1
  {
    if text == "" || text[0] != '"' then None
    else
      var key := ParseString(text[1..]);
      if key.None? || !(":" <= key.value.1) then None
      else
        var v := ParseValue(key.value.1[1..]);
        if v.None? then None else Some(((key.value.0, v.value.0), v.value.1))
  }

  /** The fields of a non-empty object, with its closing brace. */
  function ParseFields(text: string): (r: Option<(seq<(string, Json)>, string)>)
    ensures r.Some? ==> |r.value.1| < |text|
    decreases |text|, 2
  {
    var first := ParseField(text);
    if first.None? || first.value.1 == "" then None
    else
      var (f, rest) := first.value;
      if rest[0] == '}' then Some(([f], rest[1..]))
      else if rest[0] != ',' then None
      else
        var more := ParseFields(rest[1..]);
        if more.None? then None else Some(([f] + more.value.0, more.value.1))
  }

  /** A whole text. */
  function Load(text: string): Option<Json> {
    var r := ParseValue(text);
    if r.Some? && r.value.1 == "" then Some(r.value.0) else None
  }

  // ---- Reading back what was written -------------------------------------------------------

  lemma UnitRoundTrip(n: nat, rest: string)
    requires n < 0x10000
    ensures ParseUnit(Fixed(n, 4, 16) + rest) == Some(n)
    ensures (Fixed(n, 4, 16) + rest)[4..] == rest
  {
    assert Power(16, 4) == 0x10000 by {
      assert Power(16, 1) == 16 && Power(16, 2) == 256 && Power(16, 3) == 4096;
    }
    FixedRoundTrip(n, 4, 16);
    assert (Fixed(n, 4, 16) + rest)[..4] == Fixed(n, 4, 16);
  }

  lemma EscapedUnit(n: nat, rest: string)
    requires n < 0x10000
    ensures var text := Unit(n) + rest;
            |text| >= 6 && text[0] == '\\' && text[1] == 'u' && text[2..] == Fixed(n, 4, 16) + rest
  {
  }

  lemma OneUnit(n: nat, rest: string)
    requires n < 0xD800 || 0xE000 <= n < 0x10000
    ensures ParseChar(Unit(n) + rest) == Some((n as char, rest))
  {
    EscapedUnit(n, rest);
    UnitRoundTrip(n, rest);
    assert ParseChar(Unit(n) + rest) == ParseEscapedUnit(Fixed(n, 4, 16) + rest);
  }

  lemma TwoUnits(high: nat, low: nat, rest: string)
    requires 0xD800 <= high < 0xDC00 <= low < 0xE000
    ensures ParseChar(Unit(high) + Unit(low) + rest)
         == Some(((0x10000 + (high - 0xD800) * 0x400 + (low - 0xDC00)) as char, rest))
  {
    var tail := Unit(low) + rest;
    var text := Fixed(high, 4, 16) + tail;
    assert Unit(high) + Unit(low) + rest == Unit(high) + tail;
    EscapedUnit(high, tail);
    UnitRoundTrip(high, tail);
    EscapedUnit(low, rest);
    UnitRoundTrip(low, rest);
    assert text[6..] == tail[2..] && text[10..] == rest;
    assert "\\u" <= tail;
  }

  lemma CharRoundTrip(c: char, rest: string)
    ensures ParseChar(Escape(c) + rest) == Some((c, rest))
    ensures Escape(c)[0] != '"'
  {
    var n := c as int;
    if n >= 0x10000 {
      SurrogateEscape(c, rest);
    } else if IsShort(c) {
      ShortEscape(Escape(c), c, rest);
    } else if 0x20 <= n <= 0x7E {
      SelfEscape(c, rest);
    } else {
      OneUnit(n, rest);
    }
  }

  /** A character with an escape of two characters. */
  predicate IsShort(c: char) {
    c == '"' || c == '\\' || c == '\n' || c == '\r' || c == '\t' || c as int == 8 || c as int == 12
  }

  lemma SurrogateEscape(c: char, rest: string)
    requires c as int >= 0x10000
    ensures ParseChar(Escape(c) + rest) == Some((c, rest))
  {
    var above := c as int - 0x10000;
    Surrogates(above);
    SurrogatePair(Escape(c), c, 0xD800 + above / 0x400, 0xDC00 + above % 0x400, rest);
  }

  lemma Surrogates(above: nat)
    requires above < 0x100000
    ensures 0xD800 <= 0xD800 + above / 0x400 < 0xDC00 <= 0xDC00 + above % 0x400 < 0xE000
    ensures above / 0x400 * 0x400 + above % 0x400 == above
  {
  }

  lemma SurrogatePair(escape: string, c: char, high: nat, low: nat, rest: string)
    requires 0xD800 <= high < 0xDC00 <= low < 0xE000
    requires c as int == 0x10000 + (high - 0xD800) * 0x400 + (low - 0xDC00) && escape == Unit(high) + Unit(low)
    ensures ParseChar(escape + rest) == Some((c, rest))
  {
    TwoUnits(high, low, rest);
  }

  lemma ShortEscape(escape: string, c: char, rest: string)
    requires IsShort(c) && escape == Escape(c)
    ensures ParseChar(escape + rest) == Some((c, rest))
  {
    assert (escape + rest)[2..] == rest;
    assert (escape + rest)[0] == escape[0] && (escape + rest)[1] == escape[1];
  }

  lemma SelfEscape(c: char, rest: string)
    requires 0x20 <= c as int && c != '"' && c != '\\'
    ensures ParseChar([c] + rest) == Some((c, rest))
  {
    assert ([c] + rest)[1..] == rest;
  }

  lemma ReadsString(text: string, c: char, tail: string, s: string, rest: string)
    requires text != "" && text[0] != '"' && ParseChar(text) == Some((c, tail)) && ParseString(tail) == Some((s, rest))
    ensures ParseString(text) == Some(([c] + s, rest))
  {
  }

  lemma ReadsEnd(rest: string)
    ensures ParseString("\"" + rest) == Some(("", rest))
  {
    assert ("\"" + rest)[1..] == rest;
  }

  /** A string's text with its closing quote, and what follows. */
  function Closed(s: string, rest: string): string { EscapeAll(s) + ("\"" + rest) }

  lemma ClosedSplit(s: string, rest: string)
    ensures Closed(s, rest) == if s == "" then "\"" + rest else Escape(s[0]) + Closed(s[1..], rest)
  {
  }

  lemma {:induction false} StringRoundTrip(s: string, rest: string)
    ensures ParseString(Closed(s, rest)) == Some((s, rest))
  {
    ClosedSplit(s, rest);
    if s == "" {
      ReadsEnd(rest);
    } else {
      var tail := Closed(s[1..], rest);
      CharRoundTrip(s[0], tail);
      StringRoundTrip(s[1..], rest);
      ReadsString(Escape(s[0]) + tail, s[0], tail, s[1..], rest);
      assert s == [s[0]] + s[1..];
    }
  }

  lemma ReadsNatural(text: string, n: nat, rest: string)
    requires text != "" && IsDigit(text[0], 10) && ParseDecimal(0, text) == (n, rest)
    ensures ParseValue(text) == Some((Number(n), rest))
    ensures ParseValue("-" + text) == Some((Number(0 - n), rest))
  {
    assert ("-" + text)[1..] == text;
  }

  lemma NumberRoundTrip(n: int, rest: string)
    requires EndsNumeral(rest)
    ensures ParseValue(DumpNumber(n) + rest) == Some((Number(n), rest))
    ensures DumpNumber(n)[0] != ']'
  {
    var m := if n < 0 then -n else n;
    DecimalPrefix(m, rest);
    DecimalPrefix(m, "");
    DecimalRoundTrip(m, rest);
    ReadsNatural(Decimal(m) + rest, m, rest);
    assert Decimal(m) + "" == Decimal(m);
    assert "-" + Decimal(m) + rest == "-" + (Decimal(m) + rest);
  }

  lemma QuoteSplit(s: string, rest: string)
    ensures var text := Quote(s) + rest; text != "" && text[0] == '"' && text[1..] == Closed(s, rest)
  {
    QuotedSplit(EscapeAll(s), rest);
  }

  lemma QuotedSplit(inner: string, rest: string)
    ensures var text := "\"" + inner + "\"" + rest;
            text != "" && text[0] == '"' && text[1..] == inner + ("\"" + rest)
  {
  }

  lemma QuoteRoundTrip(s: string, rest: string)
    ensures var text := Quote(s) + rest;
            text[0] == '"' && ParseString(text[1..]) == Some((s, rest))
  {
    StringRoundTrip(s, rest);
    QuoteSplit(s, rest);
  }

  lemma DumpStarts(v: Json)
    ensures Dump(v) != "" && Dump(v)[0] != ']'
  {
    if v.Number? {
      NumberRoundTrip(v.n, "");
    }
  }

  /** Reading back a value gives the value itself, and leaves what follows it. */
  lemma {:induction false} ValueRoundTrip(v: Json, rest: string)
    requires EndsNumeral(rest)
    ensures ParseValue(Dump(v) + rest) == Some((v, rest))
    decreases v, 1
  {
    match v {
      case Null => assert (Dump(v) + rest)[4..] == rest;
      case Number(n) => NumberRoundTrip(n, rest);
      case Str(s) => QuoteRoundTrip(s, rest);
      case Arr(items) =>
        if items != [] {
          DumpStarts(items[0]);
          ItemsRoundTrip(items, rest);
          assert DumpItems(items)[0] != ']';
        }
        ReadsArray(items, DumpItems(items), rest);
      case Obj(fields) =>
        if fields != [] {
          FieldsRoundTrip(fields, rest);
        }
        ReadsObject(fields, DumpFields(fields), rest);
    }
  }

  lemma ReadsArray(items: seq<Json>, inner: string, rest: string)
    requires items == [] ==> inner == ""
    requires items != [] ==> inner != "" && inner[0] != ']' && ParseItems(inner + "]" + rest) == Some((items, rest))
    ensures ParseValue("[" + inner + "]" + rest) == Some((Arr(items), rest))
  {
    var text := "[" + inner + "]" + rest;
    assert text[1..] == inner + "]" + rest;
    assert items == [] ==> text[2..] == rest;
  }

  lemma ReadsObject(fields: seq<(string, Json)>, inner: string, rest: string)
    requires fields == [] ==> inner == ""
    requires fields != [] ==> inner != "" && inner[0] == '"' && ParseFields(inner + "}" + rest) == Some((fields, rest))
    ensures ParseValue("{" + inner + "}" + rest) == Some((Obj(fields), rest))
  {
    var text := "{" + inner + "}" + rest;
    assert text[1..] == inner + "}" + rest;
    assert fields == [] ==> text[2..] == rest;
  }

  /** What follows the first element of a list, given the text of the others. */
  function Tail<T>(elements: seq<T>, others: string, close: char, rest: string): (tail: string)
    requires elements != []
    ensures tail != "" && tail[0] == if |elements| == 1 then close else ','
    ensures tail[1..] == if |elements| == 1 then rest else others + [close] + rest
  {
    if |elements| == 1 then [close] + rest else "," + (others + [close] + rest)
  }

  lemma ItemsSplit(items: seq<Json>, rest: string)
    requires items != []
    ensures DumpItems(items) + "]" + rest == Dump(items[0]) + Tail(items, DumpItems(items[1..]), ']', rest)
  {
    JoinSplit(Dump(items[0]), items, DumpItems(items[1..]), "]", rest);
  }

  lemma FieldsSplit(fields: seq<(string, Json)>, rest: string)
    requires fields != []
    ensures DumpFields(fields) + "}" + rest == DumpField(fields[0]) + Tail(fields, DumpFields(fields[1..]), '}', rest)
    ensures DumpFields(fields)[0] == '"'
  {
    FieldStarts(fields[0]);
    JoinSplit(DumpField(fields[0]), fields, DumpFields(fields[1..]), "}", rest);
  }

  lemma JoinSplit<T>(first: string, elements: seq<T>, others: string, close: string, rest: string)
    requires elements != [] && |close| == 1
    ensures first + (if |elements| == 1 then "" else "," + others) + close + rest
         == first + Tail(elements, others, close[0], rest)
  {
    assert [close[0]] == close;
  }

  lemma FieldStarts(field: (string, Json))
    ensures DumpField(field) != "" && DumpField(field)[0] == '"'
  {
  }

  lemma FirstAndRest<T>(s: seq<T>)
    requires s != []
    ensures s == if |s| == 1 then [s[0]] else [s[0]] + s[1..]
  {
  }

  lemma ReadsItems(text: string, v: Json, tail: string)
    requires ParseValue(text).Some? && ParseValue(text).value == (v, tail) && tail != ""
    ensures tail[0] == ']' ==> ParseItems(text) == Some(([v], tail[1..]))
    ensures tail[0] == ',' && ParseItems(tail[1..]).Some? ==>
              ParseItems(text) == Some(([v] + ParseItems(tail[1..]).value.0, ParseItems(tail[1..]).value.1))
  {
  }

  lemma {:induction false} ItemsRoundTrip(items: seq<Json>, rest: string)
    requires items != []
    ensures ParseItems(DumpItems(items) + "]" + rest) == Some((items, rest))
    decreases items, 0
  {
    var tail := Tail(items, DumpItems(items[1..]), ']', rest);
    ItemsSplit(items, rest);
    ValueRoundTrip(items[0], tail);
    ReadsItems(Dump(items[0]) + tail, items[0], tail);
    FirstAndRest(items);
    if |items| > 1 {
      ItemsRoundTrip(items[1..], rest);
    }
  }

  lemma ReadsField(text: string, key: string, after: string, v: Json, rest: string)
    requires text != "" && text[0] == '"' && ParseString(text[1..]) == Some((key, ":" + after))
    requires ParseValue(after) == Some((v, rest))
    ensures ParseField(text) == Some(((key, v), rest))
  {
    assert (":" + after)[1..] == after;
  }

  lemma {:induction false} FieldRoundTrip(field: (string, Json), rest: string)
    requires EndsNumeral(rest)
    ensures ParseField(DumpField(field) + rest) == Some((field, rest))
    decreases field, 2
  {
    var after := Dump(field.1) + rest;
    var text := Quote(field.0) + (":" + after);
    assert DumpField(field) + rest == text;
    QuoteRoundTrip(field.0, ":" + after);
    ValueRoundTrip(field.1, rest);
    ReadsField(text, field.0, after, field.1, rest);
  }

  lemma ReadsFields(text: string, f: (string, Json), tail: string)
    requires ParseField(text).Some? && ParseField(text).value == (f, tail) && tail != ""
    ensures tail[0] == '}' ==> ParseFields(text) == Some(([f], tail[1..]))
    ensures tail[0] == ',' && ParseFields(tail[1..]).Some? ==>
              ParseFields(text) == Some(([f] + ParseFields(tail[1..]).value.0, ParseFields(tail[1..]).value.1))
  {
  }

  lemma {:induction false} FieldsRoundTrip(fields: seq<(string, Json)>, rest: string)
    requires fields != []
    ensures ParseFields(DumpFields(fields) + "}" + rest) == Some((fields, rest))
    ensures DumpFields(fields)[0] == '"'
    decreases fields, 0
  {
    var tail := Tail(fields, DumpFields(fields[1..]), '}', rest);
    FieldsSplit(fields, rest);
    FieldRoundTrip(fields[0], tail);
    ReadsFields(DumpField(fields[0]) + tail, fields[0], tail);
    FirstAndRest(fields);
    if |fields| > 1 {
      FieldsRoundTrip(fields[1..], rest);
    }
  }

  /** json.loads reads back exactly what json.dumps wrote. */
  lemma LoadDump(v: Json)
    ensures Load(Dump(v)) == Some(v)
  {
    ValueRoundTrip(v, "");
    assert Dump(v) + "" == Dump(v);
  }
}

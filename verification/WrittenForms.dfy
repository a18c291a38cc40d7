/** The punctuation of the written forms, which reading them back leaves open. */
module WrittenForms {
  import opened Wrappers
  import opened Json
  import opened Numerals
  import opened Timestamps

  // ---- JSON ----------------------------------------------------------------------------------

  lemma ConstantsWritten(n: nat)
    ensures Dump(Null) == "null" && Dump(Arr([])) == "[]" && Dump(Obj([])) == "{}"
    ensures Dump(Number(n)) == Decimal(n) && (n > 0 ==> Dump(Number(0 - n)) == "-" + Decimal(n))
  {
  }

  /** Compact: commas between items and fields, colons after keys, and no white space. */
  lemma ContainersWritten(v: Json, w: Json, key: string, other: string)
    ensures Dump(Arr([v, w])) == "[" + (Dump(v) + ("," + Dump(w))) + "]"
    ensures Dump(Obj([(key, v), (other, w)]))
         == "{" + (Quote(key) + ":" + Dump(v) + ("," + (Quote(other) + ":" + Dump(w)))) + "}"
    ensures Quote(key) == "\"" + EscapeAll(key) + "\""
  {
    assert [v, w][1..] == [w] && DumpItems([w]) == Dump(w);
    assert DumpItems([v, w]) == Dump(v) + ("," + Dump(w));
    var f, g := (key, v), (other, w);
    assert [f, g][1..] == [g];
    assert DumpFields([g]) == DumpField(g);
    assert DumpFields([f, g]) == DumpField(f) + ("," + DumpField(g));
  }

  lemma ShortEscapes()
    ensures Escape('"') == "\\\"" && Escape('\\') == "\\\\" && Escape('/') == "/"
    ensures Escape('\n') == "\\n" && Escape('\r') == "\\r" && Escape('\t') == "\\t"
    ensures Escape(8 as char) == "\\b" && Escape(12 as char) == "\\f"
  {
  }

  lemma DecimalIs(n: nat)
    ensures n < 10 ==> Decimal(n) == [Digit(n)]
    ensures n >= 10 ==> Decimal(n) == Decimal(n / 10) + [Digit(n % 10)]
  {
  }

  lemma UnitIs(a: nat, b: nat, c: nat, d: nat)
    requires a < 16 && b < 16 && c < 16 && d < 16
    ensures Unit(a * 4096 + b * 256 + c * 16 + d) == "\\u" + [Digit(a), Digit(b), Digit(c), Digit(d)]
  {
    var digits := [a, b, c, d];
    assert digits[..3][..2] == digits[..2] && digits[..2][..1] == digits[..1] && digits[..1][..0] == [];
    assert ValueOf(digits[..1], 16) == a;
    assert ValueOf(digits[..2], 16) == a * 16 + b;
    assert ValueOf(digits[..3], 16) == a * 256 + b * 16 + c;
    FixedIsDigits(digits, 16);
  }

  /** Control characters, DEL and everything beyond ASCII are written as units of four digits; beyond the
      sixteen bits, as a surrogate pair. */
  lemma UnitEscapes(c: char)
    ensures var n := c as int;
            && ((n < 0x20 && n !in {8, 9, 10, 12, 13}) || 0x7F <= n < 0x10000 ==> Escape(c) == Unit(n))
            && (0x20 <= n < 0x7F && c != '"' && c != '\\' ==> Escape(c) == [c])
            && (n >= 0x10000 ==>
                  exists high: nat, low: nat :: 0xD800 <= high < 0xDC00 <= low < 0xE000
                    && n == 0x10000 + (high - 0xD800) * 0x400 + (low - 0xDC00) && Escape(c) == Unit(high) + Unit(low))
  {
    var n := c as int;
    if n >= 0x10000 {
      Surrogates(n - 0x10000);
      PairWritten(c, 0xD800 + (n - 0x10000) / 0x400, 0xDC00 + (n - 0x10000) % 0x400);
    }
  }

  lemma PairWritten(c: char, high: nat, low: nat)
    requires c as int >= 0x10000
    requires high == 0xD800 + (c as int - 0x10000) / 0x400 && low == 0xDC00 + (c as int - 0x10000) % 0x400
    ensures Escape(c) == Unit(high) + Unit(low)
  {
  }

  // ---- Times ---------------------------------------------------------------------------------

  lemma TwoIs(n: nat)
    requires n < 100
    ensures Two(n) == [Digit(n / 10), Digit(n % 10)]
  {
    var digits := [n / 10, n % 10];
    assert digits[..1][..0] == [] && ValueOf(digits[..1], 10) == n / 10;
    FixedIsDigits(digits, 10);
  }

  /** The date and the time of day, with the fraction when there is one, and the offset; UTC is +00:00. */
  lemma IsoIs(s: Stamp)
    requires ValidStamp(s)
    ensures var c, t := s.civil, s.civil.micros;
            IsoFormat(s)
            == Fixed(c.year, 4, 10) + "-" + Two(c.month) + "-" + Two(c.day) + "T"
               + (Two(t / 3600000000) + ":" + Two(t / 60000000 % 60)) + ":"
               + (Two(t / 1000000 % 60) + if t % 1000000 == 0 then "" else "." + Fixed(t % 1000000, 6, 10))
               + OffsetText(s.offset)
  {
  }

  lemma SizeIs(hours: nat, minutes: nat, size: nat)
    requires hours < 24 && minutes < 60 && size == hours * 3600000000 + minutes * 60000000
    ensures SizeText(size) == Two(hours) + ":" + Two(minutes)
  {
    WholeMinutes(hours, minutes, size);
  }

  lemma WholeMinutes(hours: nat, minutes: nat, size: nat)
    requires minutes < 60 && size == hours * 3600000000 + minutes * 60000000
    ensures size / 3600000000 == hours && size / 60000000 % 60 == minutes && size % 60000000 == 0
  {
    assert size / 60000000 == hours * 60 + minutes;
  }

  /** An offset of whole minutes; UTC itself is ahead by nothing. */
  lemma OffsetIs(hours: nat, minutes: nat, size: nat)
    requires hours < 24 && minutes < 60 && size == hours * 3600000000 + minutes * 60000000
    ensures OffsetText(Some(size)) == "+" + (Two(hours) + ":" + Two(minutes))
    ensures size > 0 ==> OffsetText(Some(0 - size)) == "-" + (Two(hours) + ":" + Two(minutes))
    ensures OffsetText(None) == ""
  {
    SizeIs(hours, minutes, size);
  }

  // ---- The calendar --------------------------------------------------------------------------

  /** The days of year 1 are counted from 0; each month has its days, February one more in a leap year. */
  lemma CalendarIs(year: int, month: int)
    requires 1 <= month <= 12
    ensures DayNumber(1, 1, 1) == 0
    ensures var leap := year % 4 == 0 && (year % 100 != 0 || year % 400 == 0);
            DaysInMonth(year, month)
            == [31, if leap then 29 else 28, 31, 30, 31, 30, 31, 31, 30, 31, 30, 31][month - 1]
    ensures month < 12 ==> DayNumber(year, month + 1, 1) == DayNumber(year, month, DaysInMonth(year, month)) + 1
    ensures DayNumber(year + 1, 1, 1) == DayNumber(year, 12, 31) + 1
  {
    YearStep(year);
    MonthsFillYear(year);
  }

  /** A time with an offset denotes the instant that many microseconds before its civil time in UTC. */
  lemma ToUtcIs(s: Datetime)
    ensures ToUtc(s).Some? <==> 0 <= Micros(s.civil) - Shift(s.offset) < 3652059 * 86400000000
    ensures ToUtc(s).Some? ==>
              && ToUtc(s).value.offset == Some(0) && ValidCivil(ToUtc(s).value.civil)
              && Micros(ToUtc(s).value.civil) == Micros(s.civil) - Shift(s.offset)
  {
    if ToUtc(s).Some? {
      CivilOfIsInverse(Instant(s));
    }
  }

  function Shift(offset: Option<int>): int {
    match offset
    case None => 0
    case Some(n) => n
  }
}

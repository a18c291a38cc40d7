/**
 Datetimes as Python has them: civil fields to the microsecond and an optional UTC offset, their ISO
 texts, the instants they denote, and conversion to UTC. The calendar is the proleptic Gregorian one.
 */
module Timestamps {
  import opened Wrappers
  import opened Numerals

  const DAY := 86400000000  // microseconds

  /** A date of the proleptic Gregorian calendar and a time of day in microseconds. */
  datatype Civil = Civil(year: int, month: int, day: int, micros: int)

  /** A datetime; offset is the UTC offset in microseconds, absent from a naive one. */
  datatype Stamp = Stamp(civil: Civil, offset: Option<int>)

  predicate IsLeap(year: int) { year % 4 == 0 && (year % 100 != 0 || year % 400 == 0) }

  function DaysInMonth(year: int, month: int): (d: int)
    requires 1 <= month <= 12
    ensures 28 <= d <= 31
  {
    if month == 2 then if IsLeap(year) then 29 else 28
    else if month == 4 || month == 6 || month == 9 || month == 11 then 30
    else 31
  }

  predicate ValidCivil(c: Civil) {
    1 <= c.year <= 9999 && 1 <= c.month <= 12 && 1 <= c.day <= DaysInMonth(c.year, c.month) && 0 <= c.micros < DAY
  }

  predicate ValidStamp(s: Stamp) {
    ValidCivil(s.civil) && (s.offset.Some? ==> -DAY < s.offset.value < DAY)
  }

  /** A datetime that Python can hold. */
  type Datetime = s: Stamp | ValidStamp(s) witness Stamp(Civil(1, 1, 1, 0), None)

  // ---- Instants ----------------------------------------------------------------------------

  function DaysBeforeYear(year: int): int {
    var y := year - 1;
    y * 365 + y / 4 - y / 100 + y / 400
  }

  function DaysBeforeMonth(year: int, month: int): int
    requires 1 <= month <= 13
    decreases month
  {
    if month == 1 then 0 else DaysBeforeMonth(year, month - 1) + DaysInMonth(year, month - 1)
  }

  function DaysInYear(year: int): int { if IsLeap(year) then 366 else 365 }

  lemma QuotientSteps(y: int)
    ensures y / 4 == (y - 1) / 4 + if y % 4 == 0 then 1 else 0
    ensures y / 100 == (y - 1) / 100 + if y % 100 == 0 then 1 else 0
    ensures y / 400 == (y - 1) / 400 + if y % 400 == 0 then 1 else 0
  {
  }

  lemma LeapDivisors(y: int)
    ensures y % 400 == 0 ==> y % 100 == 0
    ensures y % 100 == 0 ==> y % 4 == 0
  {
    if y % 400 == 0 {
      MultipleOf100(y, y / 400);
    }
    if y % 100 == 0 {
      MultipleOf4(y, y / 100);
    }
  }

  lemma MultipleOf100(y: int, q: int)
    requires y == q * 400
    ensures y % 100 == 0
  {
  }

  lemma MultipleOf4(y: int, q: int)
    requires y == q * 100
    ensures y % 4 == 0
  {
  }

  lemma YearStep(year: int)
    ensures DaysBeforeYear(year + 1) == DaysBeforeYear(year) + DaysInYear(year)
  {
    QuotientSteps(year);
    LeapDivisors(year);
  }

  lemma MonthsFillYear(year: int)
    ensures DaysBeforeMonth(year, 13) == DaysInYear(year)
  {
    assert DaysBeforeMonth(year, 4) == 59 + 31 + if IsLeap(year) then 1 else 0;
    assert DaysBeforeMonth(year, 7) == DaysBeforeMonth(year, 4) + 91;
    assert DaysBeforeMonth(year, 10) == DaysBeforeMonth(year, 7) + 92;
  }

  /** Days from the start of year 1 to the date. */
  function DayNumber(year: int, month: int, day: int): int
    requires 1 <= month <= 12
  {
    DaysBeforeYear(year) + DaysBeforeMonth(year, month) + day - 1
  }

  /** Microseconds from the start of year 1. */
  function Micros(c: Civil): int
    requires ValidCivil(c)
  {
    DayNumber(c.year, c.month, c.day) * DAY + c.micros
  }

  /** The instant a datetime denotes; a naive one is read as UTC. */
  function Instant(s: Stamp): int
    requires ValidStamp(s)
  {
    Micros(s.civil) - if s.offset.Some? then s.offset.value else 0
  }

  // ---- Back to civil time --------------------------------------------------------------------

  function YearOf(days: int, year: int): (y: int)
    requires DaysBeforeYear(year) <= days
    ensures y >= year && DaysBeforeYear(y) <= days < DaysBeforeYear(y + 1)
    decreases days - DaysBeforeYear(year)
  {
    YearStep(year);
    if days < DaysBeforeYear(year + 1) then year else YearOf(days, year + 1)
  }

  function MonthOf(year: int, rest: int, month: int): (m: int)
    requires 1 <= month <= 12 && DaysBeforeMonth(year, month) <= rest < DaysBeforeMonth(year, 13)
    ensures month <= m <= 12
    ensures DaysBeforeMonth(year, m) <= rest < DaysBeforeMonth(year, m) + DaysInMonth(year, m)
    decreases 12 - month
  {
    if rest < DaysBeforeMonth(year, month) + DaysInMonth(year, month) then month
    else MonthOf(year, rest, month + 1)
  }

  const LAST_DAY := 3652058  // the last day of year 9999, counted from 0

  /** The civil time of an instant; nothing outside the years 1 to 9999. */
  function CivilOf(micros: int): Option<Civil> {
    var days := micros / DAY;
    if days < 0 || days > LAST_DAY then None
    else
      assert DaysBeforeYear(1) == 0;
      var year := YearOf(days, 1);
      MonthsFillYear(year);
      YearStep(year);
      var rest := days - DaysBeforeYear(year);
      var month := MonthOf(year, rest, 1);
      Some(Civil(year, month, rest - DaysBeforeMonth(year, month) + 1, micros % DAY))
  }

  lemma {:induction false} YearsRise(y: int, z: int)
    requires y <= z
    ensures DaysBeforeYear(y) <= DaysBeforeYear(z)
    decreases z - y
  {
    if y < z {
      YearsRise(y, z - 1);
      YearStep(z - 1);
    }
  }

  /** The civil time found denotes the instant it was found for. */
  lemma CivilOfIsInverse(micros: int)
    requires CivilOf(micros).Some?
    ensures ValidCivil(CivilOf(micros).value) && Micros(CivilOf(micros).value) == micros
  {
    var c := CivilOf(micros).value;
    if c.year > 9999 {
      YearsRise(10000, c.year);
    }
    assert micros == (micros / DAY) * DAY + micros % DAY;
  }

  /** UTC, as _utc_iso converts to it; the conversion fails outside the years 1 to 9999. */
  function ToUtc(s: Stamp): Option<Stamp>
    requires ValidStamp(s)
  {
    var c := CivilOf(Instant(s));
    if c.None? then None else Some(Stamp(c.value, Some(0)))
  }

  // ---- ISO texts -------------------------------------------------------------------------------

  function Two(n: nat): string { Fixed(n, 2, 10) }

  const SECOND := 1000000
  const MINUTE := 60000000
  const HOUR := 3600000000

  /** Hours and minutes of a time of day. */
  function HourMinute(t: nat): string { Two(t / HOUR) + ":" + Two(t / MINUTE % 60) }

  /** Seconds, with a fraction when it is not zero. */
  function Seconds(t: nat): string {
    Two(t / SECOND % 60) + FractionText(t % SECOND)
  }

  function FractionText(micros: nat): string { if micros == 0 then "" else "." + Fixed(micros, 6, 10) }

  /** Hours and minutes, with seconds when they are not zero. */
  function SizeText(size: nat): string {
    HourMinute(size) + if size % MINUTE == 0 then "" else ":" + Seconds(size)
  }

  function Sign(n: int): char { if n < 0 then '-' else '+' }

  function OffsetText(offset: Option<int>): string {
    if offset.None? then ""
    else
      var size := if offset.value < 0 then -offset.value else offset.value;
      [Sign(offset.value)] + SizeText(size)
  }

  function DateText(c: Civil): string
    requires ValidCivil(c)
  {
    Fixed(c.year, 4, 10) + "-" + Two(c.month) + "-" + Two(c.day)
  }

  /** datetime.isoformat. */
  function IsoFormat(s: Stamp): string
    requires ValidStamp(s)
  {
    DateText(s.civil) + "T" + HourMinute(s.civil.micros) + ":" + Seconds(s.civil.micros) + OffsetText(s.offset)
  }

  // ---- Reading ISO texts -----------------------------------------------------------------------

  /** A numeral of the given width and limit at the start of the text, and what follows it. */
  function ReadFixed(text: string, w: nat, limit: nat): (r: Option<(nat, string)>)
    ensures r.Some? ==> r.value.0 < limit
  {
    if |text| < w then None
    else
      var n := ParseFixed(text[..w], 10);
      if n.None? || n.value >= limit then None else Some((n.value, text[w..]))
  }

  function ReadAfter(mark: char, text: string, w: nat, limit: nat): (r: Option<(nat, string)>)
    ensures r.Some? ==> r.value.0 < limit
  {
    if text == "" || text[0] != mark then None else ReadFixed(text[1..], w, limit)
  }

  function ReadHourMinute(text: string): (r: Option<(nat, string)>)
    ensures r.Some? ==> r.value.0 < DAY
  {
    var h := ReadFixed(text, 2, 24);
    if h.None? then None
    else
      var m := ReadAfter(':', h.value.1, 2, 60);
      if m.None? then None else Some((h.value.0 * HOUR + m.value.0 * MINUTE, m.value.1))
  }

  /** Seconds after a colon, with an optional fraction. */
  function ReadSeconds(text: string): (r: Option<(nat, string)>)
    ensures r.Some? ==> r.value.0 < MINUTE
  {
    var s := ReadAfter(':', text, 2, 60);
    if s.None? then None
    else if "." <= s.value.1 then
      var f := ReadAfter('.', s.value.1, 6, SECOND);
      if f.None? then None else Some((s.value.0 * SECOND + f.value.0, f.value.1))
    else Some((s.value.0 * SECOND, s.value.1))
  }

  /** The size of an offset, which ends the text. */
  function ReadSize(text: string): Option<nat> {
    var hm := ReadHourMinute(text);
    if hm.None? then None
    else if hm.value.1 == "" then Some(hm.value.0)
    else
      var s := ReadSeconds(hm.value.1);
      if s.None? || s.value.1 != "" then None else Some(hm.value.0 + s.value.0)
  }

  function ReadOffset(text: string): Option<Option<int>> {
    if text == "" then Some(None)
    else if text[0] != '+' && text[0] != '-' then None
    else
      var size := ReadSize(text[1..]);
      if size.None? then None else Some(Some(if text[0] == '-' then 0 - size.value else size.value))
  }

  /** Year, month and day, and what follows them. */
  function ReadDate(text: string): Option<(nat, nat, nat, string)> {
    var year := ReadFixed(text, 4, 10000);
    if year.None? then None else
    var month := ReadAfter('-', year.value.1, 2, 13);
    if month.None? then None else
    var day := ReadAfter('-', month.value.1, 2, 32);
    if day.None? then None else Some((year.value.0, month.value.0, day.value.0, day.value.1))
  }

  /** A time of day with its offset. */
  function ReadTime(text: string): Option<(nat, Option<int>)> {
    var hm := ReadHourMinute(text);
    if hm.None? then None else
    var s := ReadSeconds(hm.value.1);
    if s.None? then None else
    var offset := ReadOffset(s.value.1);
    if offset.None? then None else Some((hm.value.0 + s.value.0, offset.value))
  }

  /** datetime.fromisoformat, on the texts that isoformat writes; no other text is accepted. */
  function FromIsoFormat(text: string): (r: Option<Stamp>)
    ensures r.Some? ==> ValidStamp(r.value)
  {
    var date := ReadDate(text);
    if date.None? || !("T" <= date.value.3) then None else
    var time := ReadTime(date.value.3[1..]);
    if time.None? then None else
    var stamp := Stamp(Civil(date.value.0, date.value.1, date.value.2, time.value.0), time.value.1);
    if ValidStamp(stamp) then Some(stamp) else None
  }

  // ---- Reading back what was written -------------------------------------------------------

  lemma ReadFixedBack(n: nat, w: nat, limit: nat, rest: string)
    requires n < limit <= Power(10, w)
    ensures ReadFixed(Fixed(n, w, 10) + rest, w, limit) == Some((n, rest))
  {
    var text := Fixed(n, w, 10) + rest;
    FixedRoundTrip(n, w, 10);
    assert text[..w] == Fixed(n, w, 10) && text[w..] == rest;
  }

  lemma Powers()
    ensures Power(10, 2) == 100 && Power(10, 4) == 10000 && Power(10, 6) == SECOND
  {
    assert Power(10, 1) == 10 && Power(10, 3) == 1000 && Power(10, 5) == 100000;
  }

  lemma ReadAfterBack(mark: char, n: nat, w: nat, limit: nat, rest: string)
    requires n < limit <= Power(10, w)
    ensures ReadAfter(mark, [mark] + Fixed(n, w, 10) + rest, w, limit) == Some((n, rest))
  {
    assert ([mark] + Fixed(n, w, 10) + rest)[1..] == Fixed(n, w, 10) + rest;
    ReadFixedBack(n, w, limit, rest);
  }

  lemma TwoBack(mark: char, n: nat, limit: nat, rest: string)
    requires n < limit <= 100
    ensures ReadAfter(mark, [mark] + Two(n) + rest, 2, limit) == Some((n, rest))
  {
    Powers();
    ReadAfterBack(mark, n, 2, limit, rest);
  }

  function MinutesPart(t: nat): nat { t / HOUR * HOUR + t / MINUTE % 60 * MINUTE }

  function SecondsPart(t: nat): nat { t / SECOND % 60 * SECOND + t % SECOND }

  lemma TimeParts(t: nat)
    ensures t == MinutesPart(t) + SecondsPart(t)
    ensures t % MINUTE == SecondsPart(t)
  {
    assert t / SECOND / 60 == t / MINUTE && t / MINUTE / 60 == t / HOUR;
  }

  lemma HourMinuteBack(t: nat, rest: string)
    requires t < DAY
    ensures ReadHourMinute(HourMinute(t) + rest) == Some((MinutesPart(t), rest))
  {
    Powers();
    var tail := ":" + Two(t / MINUTE % 60) + rest;
    assert HourMinute(t) + rest == Two(t / HOUR) + tail;
    ReadFixedBack(t / HOUR, 2, 24, tail);
    TwoBack(':', t / MINUTE % 60, 60, rest);
  }

  lemma SecondsBack(t: nat, rest: string)
    requires !("." <= rest)
    ensures ReadSeconds(":" + Seconds(t) + rest) == Some((SecondsPart(t), rest))
  {
    var s, micros := t / SECOND % 60, t % SECOND;
    var fraction := FractionText(micros) + rest;
    SecondsSplit(t, rest);
    TwoBack(':', s, 60, fraction);
    ReadsSeconds(":" + Two(s) + fraction, s, micros, rest);
  }

  lemma SecondsSplit(t: nat, rest: string)
    ensures ":" + Seconds(t) + rest == ":" + Two(t / SECOND % 60) + (FractionText(t % SECOND) + rest)
  {
  }

  lemma ReadsSeconds(text: string, s: nat, micros: nat, rest: string)
    requires micros < SECOND && !("." <= rest)
    requires ReadAfter(':', text, 2, 60) == Some((s, FractionText(micros) + rest))
    ensures ReadSeconds(text) == Some((s * SECOND + micros, rest))
  {
    if micros == 0 {
      assert FractionText(micros) + rest == rest;
    } else {
      Powers();
      ReadAfterBack('.', micros, 6, SECOND, rest);
    }
  }

  lemma SizeBack(size: nat)
    requires size < DAY
    ensures ReadSize(SizeText(size)) == Some(size)
  {
    TimeParts(size);
    if size % MINUTE == 0 {
      HourMinuteBack(size, "");
      assert HourMinute(size) + "" == SizeText(size);
    } else {
      SecondsEndBack(size);
    }
  }

  lemma SecondsEndBack(size: nat)
    requires size < DAY && size % MINUTE != 0
    ensures ReadSize(SizeText(size)) == Some(size)
  {
    var tail := ":" + Seconds(size);
    assert tail + "" == tail;
    HourMinuteBack(size, tail);
    SecondsBack(size, "");
    TimeParts(size);
  }

  lemma OffsetBack(offset: Option<int>)
    requires offset.Some? ==> -DAY < offset.value < DAY
    ensures ReadOffset(OffsetText(offset)) == Some(offset)
  {
    if offset.Some? {
      var size := if offset.value < 0 then -offset.value else offset.value;
      SignedSizeBack(OffsetText(offset), Sign(offset.value), size);
    }
  }

  lemma SignedSizeBack(text: string, sign: char, size: nat)
    requires (sign == '+' || sign == '-') && size < DAY && text == [sign] + SizeText(size)
    ensures ReadOffset(text) == Some(Some(if sign == '-' then 0 - size else size))
  {
    SizeBack(size);
    SignedBack(sign, SizeText(size), size);
  }

  lemma SignedBack(sign: char, digits: string, size: nat)
    requires (sign == '+' || sign == '-') && ReadSize(digits) == Some(size)
    ensures ReadOffset([sign] + digits) == Some(Some(if sign == '-' then 0 - size else size))
  {
    assert ([sign] + digits)[1..] == digits;
  }

  lemma OffsetHasNoDot(offset: Option<int>)
    ensures !("." <= OffsetText(offset))
  {
    if offset.Some? {
      assert OffsetText(offset)[0] == Sign(offset.value);
    }
  }

  lemma DateBack(c: Civil, rest: string)
    requires ValidCivil(c)
    ensures ReadDate(DateText(c) + rest) == Some((c.year, c.month, c.day, rest))
  {
    Powers();
    var dayText := "-" + Two(c.day) + rest;
    var monthText := "-" + Two(c.month) + dayText;
    assert DateText(c) + rest == Fixed(c.year, 4, 10) + monthText;
    ReadFixedBack(c.year, 4, 10000, monthText);
    TwoBack('-', c.month, 13, dayText);
    TwoBack('-', c.day, 32, rest);
  }

  /** fromisoformat reads back what isoformat wrote: every field and the offset. */
  lemma IsoRoundTrip(s: Stamp)
    requires ValidStamp(s)
    ensures FromIsoFormat(IsoFormat(s)) == Some(s)
  {
    var time := TimeText(s.civil.micros, s.offset);
    IsoSplit(s, time);
    DateBack(s.civil, "T" + time);
    TimeBack(s.civil.micros, s.offset);
    ReadsStamp(DateText(s.civil) + ("T" + time), s.civil, time, s.offset);
  }

  lemma IsoSplit(s: Stamp, time: string)
    requires ValidStamp(s) && time == TimeText(s.civil.micros, s.offset)
    ensures IsoFormat(s) == DateText(s.civil) + ("T" + time)
  {
  }

  function TimeText(t: nat, offset: Option<int>): string { HourMinute(t) + AfterMinutes(t, offset) }

  function AfterMinutes(t: nat, offset: Option<int>): string { ":" + Seconds(t) + OffsetText(offset) }

  lemma MinutesBack(t: nat, offset: Option<int>)
    requires t < DAY
    ensures ReadHourMinute(TimeText(t, offset)) == Some((MinutesPart(t), AfterMinutes(t, offset)))
  {
    HourMinuteBack(t, AfterMinutes(t, offset));
  }

  lemma AfterMinutesBack(t: nat, offset: Option<int>)
    requires offset.Some? ==> -DAY < offset.value < DAY
    ensures ReadSeconds(AfterMinutes(t, offset)) == Some((SecondsPart(t), OffsetText(offset)))
    ensures ReadOffset(OffsetText(offset)) == Some(offset)
  {
    OffsetBack(offset);
    OffsetHasNoDot(offset);
    SecondsBack(t, OffsetText(offset));
  }

  lemma TimeBack(t: nat, offset: Option<int>)
    requires t < DAY && (offset.Some? ==> -DAY < offset.value < DAY)
    ensures ReadTime(TimeText(t, offset)) == Some((t, offset))
  {
    MinutesBack(t, offset);
    AfterMinutesBack(t, offset);
    TimeParts(t);
    ReadsTime(TimeText(t, offset), MinutesPart(t), AfterMinutes(t, offset), SecondsPart(t), OffsetText(offset),
              offset, t);
  }

  lemma ReadsTime(text: string, minutes: nat, afterMinutes: string, seconds: nat, afterSeconds: string,
                  offset: Option<int>, t: nat)
    requires ReadHourMinute(text) == Some((minutes, afterMinutes))
    requires ReadSeconds(afterMinutes) == Some((seconds, afterSeconds)) && ReadOffset(afterSeconds) == Some(offset)
    requires t == minutes + seconds
    ensures ReadTime(text) == Some((t, offset))
  {
  }

  lemma ReadsStamp(text: string, c: Civil, time: string, offset: Option<int>)
    requires ValidStamp(Stamp(c, offset))
    requires ReadDate(text) == Some((c.year, c.month, c.day, "T" + time)) && ReadTime(time) == Some((c.micros, offset))
    ensures FromIsoFormat(text) == Some(Stamp(c, offset))
  {
    assert ("T" + time)[1..] == time;
  }

  /** Two datetimes have the same UTC text exactly when they denote the same instant. */
  lemma UtcTextIff(s: Stamp, t: Stamp)
    requires ValidStamp(s) && ValidStamp(t) && ToUtc(s).Some? && ToUtc(t).Some?
    ensures ValidStamp(ToUtc(s).value) && ValidStamp(ToUtc(t).value)
    ensures IsoFormat(ToUtc(s).value) == IsoFormat(ToUtc(t).value) <==> Instant(s) == Instant(t)
  {
    CivilOfIsInverse(Instant(s));
    CivilOfIsInverse(Instant(t));
    IsoRoundTrip(ToUtc(s).value);
    IsoRoundTrip(ToUtc(t).value);
  }
}

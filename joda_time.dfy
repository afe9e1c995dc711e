/** The Joda-Time values `JodaTimeConverter` reads and writes, the range
    rules their constructors enforce, and the text the converter gives
    them. A `DateTime` is its fields in its own zone; the zone enters the
    text only through its offset at that instant (`zone.getOffset(ms)`),
    which is all the model keeps of it. */
module JodaTime {
  import opened Java
  import opened DecimalText
  import opened DateLayout
  import JavaTime

  /** The years of Joda's ISO chronology. */
  const MIN_YEAR: int := -292_275_054
  const MAX_YEAR: int := 292_278_993

  /** Offsets of a `DateTimeZone` stay within a day. */
  const MILLIS_PER_DAY: int := 86_400_000
  const MILLIS_PER_HOUR: int := 3_600_000
  const MILLIS_PER_MINUTE: int := 60_000

  /** The message of the `IllegalFieldValueException` the constructors
      throw; Joda names the field and the value, the model does not. */
  const FIELD_OUT_OF_RANGE: string := "Value is not in the range of its field"

  /** `DateTimeZone.UTC`, or another zone with its offset in milliseconds
      at the instant of the value. */
  datatype Zone = Utc | Fixed(offsetMillis: int)

  datatype DateTime = DateTime(year: int, month: int, day: int, hour: int, minute: int, second: int, millis: int, zone: Zone)
  datatype LocalDate = LocalDate(year: int, month: int, day: int)

  predicate ValidDate(year: int, month: int, day: int) {
    && MIN_YEAR <= year <= MAX_YEAR
    && 1 <= month <= 12
    && 1 <= day <= JavaTime.MonthLength(year, month)
  }

  predicate ValidZone(z: Zone) {
    z.Fixed? ==> -MILLIS_PER_DAY < z.offsetMillis < MILLIS_PER_DAY
  }

  predicate ValidDateTime(v: DateTime) {
    && ValidDate(v.year, v.month, v.day)
    && 0 <= v.hour < 24 && 0 <= v.minute < 60 && 0 <= v.second < 60
    && 0 <= v.millis < 1000
    && ValidZone(v.zone)
  }

  predicate ValidLocalDate(d: LocalDate) {
    ValidDate(d.year, d.month, d.day)
  }

  /** `new DateTime(year, month, day, hour, minute, second, millis, zone)`. */
  function DateTimeOf(year: int, month: int, day: int, hour: int, minute: int, second: int, millis: int, zone: Zone): (r: Result<DateTime>)
    requires ValidZone(zone)
    ensures r.Ok? <==> ValidDateTime(DateTime(year, month, day, hour, minute, second, millis, zone))
    ensures r.Ok? ==> r.value == DateTime(year, month, day, hour, minute, second, millis, zone)
    ensures r.Err? ==> r.error == IllegalArgument(FIELD_OUT_OF_RANGE)
  {
    var v := DateTime(year, month, day, hour, minute, second, millis, zone);
    if ValidDateTime(v) then Ok(v) else Err(IllegalArgument(FIELD_OUT_OF_RANGE))
  }

  /** `new LocalDate(year, month, day)`. */
  function LocalDateOf(year: int, month: int, day: int): (r: Result<LocalDate>)
    ensures r.Ok? <==> ValidDate(year, month, day)
    ensures r.Ok? ==> r.value == LocalDate(year, month, day)
    ensures r.Err? ==> r.error == IllegalArgument(FIELD_OUT_OF_RANGE)
  {
    if ValidDate(year, month, day) then Ok(LocalDate(year, month, day)) else Err(IllegalArgument(FIELD_OUT_OF_RANGE))
  }

  /** `MIN_DATE_TIME`, `0001-01-01T00:00:00Z`. */
  const MIN_DATE_TIME: DateTime := DateTime(1, 1, 1, 0, 0, 0, 0, Utc)
  /** `MIN_LOCAL_DATE`, `new LocalDate(1, 1, 1)`. */
  const MIN_LOCAL_DATE: LocalDate := LocalDate(1, 1, 1)

  // ---------------------------------------------------------------------
  // Text

  /** The milliseconds after the seconds: nothing for a whole second, one
      digit for a multiple of a tenth, three digits otherwise. Read as a
      fraction of a second the digits give the milliseconds back. */
  function MillisText(millis: int): (r: seq<Byte>)
    requires 0 <= millis < 1000
    ensures r == [] <==> millis == 0
    ensures r != [] ==> |r| == (if millis % 100 == 0 then 2 else 4) && r[0] == DOT
    ensures r != [] ==> AllDigits(r[1..]) && DigitsValue(r[1..]) * Pow10(4 - |r|) == millis
  {
    if millis == 0 then []
    else if millis % 100 == 0 then
      TenthsValue(millis);
      [DOT, DigitByte(millis / 100)]
    else
      ThousandthsValue(millis);
      [DOT] + Padded(millis, 3)
  }

  /** One digit for the tenths of a second. */
  lemma TenthsValue(millis: int)
    requires 0 < millis < 1000 && millis % 100 == 0
    ensures var r := [DOT, DigitByte(millis / 100)];
      AllDigits(r[1..]) && DigitsValue(r[1..]) * Pow10(2) == millis
  {
    var r := [DOT, DigitByte(millis / 100)];
    assert r[1..] == [DigitByte(millis / 100)];
    assert Accumulate(0, r[1..]) == millis / 100;
    assert Pow10(2) == 100;
  }

  /** Three digits for the thousandths of a second. */
  lemma ThousandthsValue(millis: int)
    requires 0 <= millis < 1000
    ensures var r := [DOT] + Padded(millis, 3);
      AllDigits(r[1..]) && DigitsValue(r[1..]) * Pow10(0) == millis
  {
    var r := [DOT] + Padded(millis, 3);
    assert r[1..] == Padded(millis, 3);
    PaddedValue(millis, 3);
    assert Pow10(3) == 1000;
  }

  /** `Z` for UTC; for any other zone the sign of its offset, then the
      hours and the minutes of its size. */
  function ZoneText(z: Zone): (r: seq<Byte>)
    requires ValidZone(z)
    ensures |r| == if z.Utc? then 1 else 6
  {
    match z
    case Utc => [ZULU]
    case Fixed(offset) =>
      var size := if offset < 0 then -offset else offset;
      var sign := if offset < 0 then MINUS else PLUS;
      [sign] + Padded(size / MILLIS_PER_HOUR, 2) + [COLON] + Padded(size % MILLIS_PER_HOUR / MILLIS_PER_MINUTE, 2)
  }

  /** The hours and minutes of a zone's text are its offset cut down to
      whole minutes, with the offset's sign: an offset with seconds or
      milliseconds loses them, and one of less than a minute behind UTC
      reads `-00:00`. */
  lemma ZoneTextValue(z: Zone)
    requires ValidZone(z) && z.Fixed?
    ensures var r := ZoneText(z);
      var size := if z.offsetMillis < 0 then -z.offsetMillis else z.offsetMillis;
      var whole := DigitsValue(r[1..3]) * MILLIS_PER_HOUR + DigitsValue(r[4..]) * MILLIS_PER_MINUTE;
      && r[0] == (if z.offsetMillis < 0 then MINUS else PLUS) && r[3] == COLON
      && AllDigits(r[1..3]) && AllDigits(r[4..]) && DigitsValue(r[4..]) < 60
      && whole <= size < whole + MILLIS_PER_MINUTE
  {
    var r := ZoneText(z);
    var size := if z.offsetMillis < 0 then -z.offsetMillis else z.offsetMillis;
    var h, m := size / MILLIS_PER_HOUR, size % MILLIS_PER_HOUR / MILLIS_PER_MINUTE;
    assert r[1..3] == Padded(h, 2) && r[4..] == Padded(m, 2);
    PairValue(h);
    PairValue(m);
  }

  /** Two padded digits spell a number below 100. */
  lemma PairValue(n: nat)
    requires n < 100
    ensures AllDigits(Padded(n, 2)) && DigitsValue(Padded(n, 2)) == n
  {
    PaddedValue(n, 2);
    assert Pow10(2) == 100;
  }

  /** `"YYYY-MM-DDTHH:MM:SS`, the milliseconds, the zone and the closing
      quote. */
  function DateTimeJson(v: DateTime): (r: seq<Byte>)
    requires ValidDateTime(v) && 0 <= v.year <= 9999
    ensures |r| == 21 + |MillisText(v.millis)| + |ZoneText(v.zone)|
    ensures r[0] == QUOTE && r[|r| - 1] == QUOTE
  {
    [QUOTE] + DateText(v.year, v.month, v.day) + [T] + ClockText(v.hour, v.minute, v.second)
      + MillisText(v.millis) + ZoneText(v.zone) + [QUOTE]
  }

  /** `"YYYY-MM-DD"`. */
  function LocalDateJson(d: LocalDate): (r: seq<Byte>)
    requires ValidLocalDate(d) && 0 <= d.year <= 9999
    ensures |r| == 12 && r[0] == QUOTE && r[11] == QUOTE && r[1..11] == DateText(d.year, d.month, d.day)
  {
    [QUOTE] + DateText(d.year, d.month, d.day) + [QUOTE]
  }
}

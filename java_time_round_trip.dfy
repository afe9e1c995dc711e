/** What the `java.time` serializers write, the deserializers read back:
    for every value in the range of the fixed layout, the characters
    between the quotes of its JSON string, as `readSimpleQuote` leaves them
    in `tmp`, give the value again. A negative offset with minutes comes
    back only when the minutes take the offset's sign. */
module JavaTimeRoundTrip {
  import opened Java
  import opened DecimalText
  import opened JavaTime
  import opened DateLayout
  import opened JavaTimeConverter
  import opened JavaTimeReading
  import NumberConverter

  /** `tmp` holds, up to `len`, the characters between the quotes of the
      JSON string `json`. */
  predicate HoldsString(tmp: seq<Char>, len: int, json: seq<Byte>) {
    0 <= len <= |tmp| && |json| == len + 2 && tmp[..len] == json[1..len + 1]
  }

  /** What `tmp` holds of a string in quotes. */
  lemma Unquoted(tmp: seq<Char>, len: int, text: seq<Byte>)
    requires HoldsString(tmp, len, [QUOTE] + text + [QUOTE])
    ensures len == |text| && tmp[..len] == text
  {
    assert ([QUOTE] + text + [QUOTE])[1..len + 1] == text;
  }

  // ---------------------------------------------------------------------
  // Fields at their positions

  lemma SliceOfSlice(s: seq<Char>, a: int, b: int, i: int, j: int)
    requires 0 <= a <= b <= |s| && 0 <= i <= j <= b - a
    ensures s[a..b][i..j] == s[a + i..a + j]
  {
    assert forall k | 0 <= k < j - i :: s[a..b][i..j][k] == s[a + i + k];
  }

  /** A date in the fixed layout reads back field by field. */
  lemma DateFieldsAt(tmp: seq<Char>, p: int, d: LocalDate)
    requires ValidDate(d) && 0 <= d.year <= 9999 && 0 <= p && p + 10 <= |tmp|
    requires tmp[p..p + 10] == DateText(d.year, d.month, d.day)
    ensures tmp[p + 4] == MINUS && tmp[p + 7] == MINUS
    ensures NumberConverter.Read4(tmp, p) == d.year
    ensures NumberConverter.Read2(tmp, p + 5) == d.month && NumberConverter.Read2(tmp, p + 8) == d.day
  {
    var w := DateText(d.year, d.month, d.day);
    SliceOfSlice(tmp, p, p + 10, 0, 4);
    SliceOfSlice(tmp, p, p + 10, 5, 7);
    SliceOfSlice(tmp, p, p + 10, 8, 10);
    assert tmp[p..p + 4] == w[..4];
    assert tmp[p + 5..p + 7] == w[5..7];
    assert tmp[p + 8..p + 10] == w[8..];
    assert tmp[p + 4] == w[4] && tmp[p + 7] == w[7];
    NumberConverter.Read4Write4(d.year, tmp, p);
    NumberConverter.Read2Write2(d.month, tmp, p + 5);
    NumberConverter.Read2Write2(d.day, tmp, p + 8);
  }

  /** A clock time in the fixed layout reads back field by field. */
  lemma ClockFieldsAt(tmp: seq<Char>, p: int, t: LocalTime)
    requires ValidTime(t) && 0 <= p && p + 8 <= |tmp|
    requires tmp[p..p + 8] == ClockText(t.hour, t.minute, t.second)
    ensures tmp[p + 2] == COLON && tmp[p + 5] == COLON
    ensures NumberConverter.Read2(tmp, p) == t.hour
    ensures NumberConverter.Read2(tmp, p + 3) == t.minute && NumberConverter.Read2(tmp, p + 6) == t.second
  {
    var w := ClockText(t.hour, t.minute, t.second);
    SliceOfSlice(tmp, p, p + 8, 0, 2);
    SliceOfSlice(tmp, p, p + 8, 3, 5);
    SliceOfSlice(tmp, p, p + 8, 6, 8);
    assert tmp[p..p + 2] == w[..2];
    assert tmp[p + 3..p + 5] == w[3..5];
    assert tmp[p + 6..p + 8] == w[6..];
    assert tmp[p + 2] == w[2] && tmp[p + 5] == w[5];
    NumberConverter.Read2Write2(t.hour, tmp, p);
    NumberConverter.Read2Write2(t.minute, tmp, p + 3);
    NumberConverter.Read2Write2(t.second, tmp, p + 6);
  }

  /** Trailing zeros of the nine padded digits are worth nothing. */
  lemma FractionValue(nano: int)
    requires 0 < nano < 1_000_000_000
    ensures 1 <= |Fraction(nano)| <= 9 && AllDigits(Fraction(nano))
    ensures DigitsValue(Fraction(nano)) * Pow10(9 - |Fraction(nano)|) == nano
  {
    var f := Fraction(nano);
    var p := Padded(nano, 9);
    NanoTextLength(nano);
    assert |NanoText(nano)| == 1 + |f|;
    assert AllDigits(f) by {
      forall j | 0 <= j < |f| ensures IsDigit(f[j]) {
        assert f[j] == p[j];
      }
    }
    PaddedNanoValue(nano);
    var z := p[|f|..];
    assert p == f + z;
    DigitsThenZeros(f, z);
  }

  /** Nine padded digits spell the nanoseconds. */
  lemma PaddedNanoValue(nano: int)
    requires 0 <= nano < 1_000_000_000
    ensures DigitsValue(Padded(nano, 9)) == nano
  {
    PaddedValue(nano, 9);
    Pow10Add(3, 3);
    Pow10Add(6, 3);
    assert Pow10(3) == 1000;
  }

  /** A run of `'0'` is the padded form of zero. */
  lemma ZerosArePadding(z: seq<Byte>)
    requires forall i | 0 <= i < |z| :: z[i] == '0' as int
    ensures z == Padded(0, |z|)
  {
    PaddedZero(|z|);
    assert forall i | 0 <= i < |z| :: z[i] == Padded(0, |z|)[i];
  }

  /** Zeros after some digits shift their value by a power of ten. */
  lemma DigitsThenZeros(f: seq<Byte>, z: seq<Byte>)
    requires forall i | 0 <= i < |z| :: z[i] == '0' as int
    ensures DigitsValue(f + z) == DigitsValue(f) * Pow10(|z|)
  {
    AccumulateAppend(0, f, z);
    AccumulateFrom(DigitsValue(f), z);
    ZerosArePadding(z);
    PaddedValue(0, |z|);
    assert DigitsValue(z) == 0;
  }

  /** `readNanos` inverts `writeNano`: the fraction it writes, trailing
      zeros dropped, reads back as the same nanoseconds. */
  lemma ReadNanosWriteNano(tmp: seq<Char>, dot: int, end: int, nano: int)
    requires 0 < nano < 1_000_000_000 && 0 <= dot <= end <= |tmp|
    requires tmp[dot..end] == NanoText(nano)
    ensures dot + 2 <= end <= dot + 10 && tmp[dot] == DOT
    ensures DigitsBetween(tmp, dot + 1, end)
    ensures ReadNanos(tmp, end, dot + 1) == Ok(nano)
  {
    var f := Fraction(nano);
    FractionValue(nano);
    assert tmp[dot] == tmp[dot..end][0];
    assert tmp[dot + 1..end] == tmp[dot..end][1..];
    assert tmp[dot + 1..end] == f;
    forall i | dot + 1 <= i < end ensures IsDigit(tmp[i]) {
      assert tmp[i] == f[i - dot - 1];
    }
    ReadNanosValue(tmp, end, dot + 1);
  }

  /** What the `±HH:MM` text of offset `z` reads back as when only the
      hours take the sign: `z` itself when it is positive or a whole number
      of hours; below one hour, the mirror image `+00:MM`; otherwise
      `ofHoursMinutes` rejects the negative hours with positive minutes. */
  function AsWrittenOffset(z: ZoneOffset): Result<ZoneOffset> {
    if z.totalSeconds >= 0 || z.totalSeconds % 3600 == 0 then Ok(z)
    else if z.totalSeconds > -3600 then Ok(ZoneOffset(-z.totalSeconds))
    else Err(DateTimeInvalid)
  }

  /** A `±HH:MM` offset as `getId()` writes it reads back with signed
      minutes; as written, it reads as `AsWrittenOffset`. */
  lemma OffsetSuffixAt(tmp: seq<Char>, len: int, z: ZoneOffset)
    requires ValidOffset(z) && z.totalSeconds != 0 && z.totalSeconds % 60 == 0
    requires 6 <= len <= |tmp| && tmp[len - 6..len] == ZoneId(z)
    ensures OffsetSuffix(tmp, len) && tmp[len - 1] != ZULU
    ensures SuffixOffset(tmp, len, true) == Ok(z)
    ensures SuffixOffset(tmp, len, false) == AsWrittenOffset(z)
  {
    var total := z.totalSeconds;
    var abs := if total < 0 then -total else total;
    var h, m := abs / 3600, abs / 60 % 60;
    OffsetParts(total);
    var sign: Byte := if total < 0 then MINUS else PLUS;
    assert ZoneId(z) == [sign] + Padded(h, 2) + [COLON] + Padded(m, 2);
    OffsetDigits(tmp, len, sign, h, m);
    if total < 0 {
      assert SuffixOffset(tmp, len, true) == OfHoursMinutes(-h, -m);
      assert SuffixOffset(tmp, len, false) == OfHoursMinutes(-h, m);
    } else {
      assert SuffixOffset(tmp, len, false) == OfHoursMinutes(h, m);
    }
  }

  /** The hours and minutes `getId()` writes for an offset of whole
      minutes make up the offset. */
  lemma OffsetParts(total: int)
    requires -MAX_OFFSET <= total <= MAX_OFFSET && total != 0 && total % 60 == 0
    ensures var abs := if total < 0 then -total else total;
      var h, m := abs / 3600, abs / 60 % 60;
      && abs == h * 3600 + m * 60 && 0 <= h <= 18 && 0 <= m < 60 && (h == 18 ==> m == 0)
      && (total % 3600 == 0 ==> m == 0)
  {
    var abs := if total < 0 then -total else total;
    var q := abs / 60;
    assert abs == q * 60;
    var h, m := q / 60, q % 60;
    assert abs == h * 3600 + m * 60;
    DivModUnique(abs, 3600, h, m * 60);
    if total % 3600 == 0 {
      DivModUnique(abs, 3600, abs / 3600, 0);
    }
  }

  /** The characters of a `±HH:MM` suffix read back as its sign, hours and
      minutes. */
  lemma OffsetDigits(tmp: seq<Char>, len: int, sign: Byte, h: int, m: int)
    requires 6 <= len <= |tmp| && (sign == PLUS || sign == MINUS) && 0 <= h < 100 && 0 <= m < 100
    requires tmp[len - 6..len] == [sign] + Padded(h, 2) + [COLON] + Padded(m, 2)
    ensures OffsetSuffix(tmp, len) && tmp[len - 1] != ZULU && tmp[len - 6] == sign
    ensures NumberConverter.Read2(tmp, len - 5) == h && NumberConverter.Read2(tmp, len - 2) == m
  {
    SliceOfSlice(tmp, len - 6, len, 1, 3);
    SliceOfSlice(tmp, len - 6, len, 4, 6);
    assert tmp[len - 5..len - 3] == Padded(h, 2) && tmp[len - 2..len] == Padded(m, 2);
    assert tmp[len - 6] == tmp[len - 6..len][0];
    assert tmp[len - 3] == tmp[len - 6..len][3];
    NumberConverter.Read2Write2(h, tmp, len - 5);
    NumberConverter.Read2Write2(m, tmp, len - 2);
    forall i | len - 2 <= i < len ensures IsDigit(tmp[i]) {
      assert tmp[i] == Padded(m, 2)[i - (len - 2)];
    }
    forall i | len - 5 <= i < len - 3 ensures IsDigit(tmp[i]) {
      assert tmp[i] == Padded(h, 2)[i - (len - 5)];
    }
  }

  // ---------------------------------------------------------------------
  // Round trips

  /** A date up to year 9999 reads back from the string `serialize(LocalDate)`
      writes. */
  lemma LocalDateRoundTrip(d: LocalDate, tmp: seq<Char>, len: int)
    requires ValidDate(d) && 0 <= d.year <= 9999
    requires HoldsString(tmp, len, LocalDateJson(d))
    ensures DeserializeLocalDate(tmp, len) == Ok(Value(d))
  {
    Unquoted(tmp, len, DateText(d.year, d.month, d.day));
    assert tmp[0..10] == tmp[..len];
    DateFieldsAt(tmp, 0, d);
  }

  /** The short form `YYYY-M-D` of a date with a one-digit month and day
      reads as that date. */
  lemma ShortDateForm(d: LocalDate, tmp: seq<Char>)
    requires ValidDate(d) && 0 <= d.year <= 9999 && d.month < 10 && d.day < 10 && 8 <= |tmp|
    requires tmp[..4] == Padded(d.year, 4) && tmp[4] == MINUS && tmp[5] == DigitByte(d.month)
    requires tmp[6] == MINUS && tmp[7] == DigitByte(d.day)
    ensures DeserializeLocalDate(tmp, 8) == Ok(Value(d))
  {
    assert tmp[0..4] == tmp[..4];
    NumberConverter.Read4Write4(d.year, tmp, 0);
    ShortPath(tmp, 8, LocalDate(NumberConverter.Read4(tmp, 0), tmp[5] as int - 48, tmp[7] as int - 48));
  }

  /** The short form `YYYY-M-DD` of a date with a one-digit month reads as
      that date. */
  lemma ShortMonthForm(d: LocalDate, tmp: seq<Char>)
    requires ValidDate(d) && 0 <= d.year <= 9999 && d.month < 10 && 9 <= |tmp|
    requires tmp[..4] == Padded(d.year, 4) && tmp[4] == MINUS && tmp[5] == DigitByte(d.month)
    requires tmp[6] == MINUS && tmp[7..9] == Padded(d.day, 2)
    ensures DeserializeLocalDate(tmp, 9) == Ok(Value(d))
  {
    assert tmp[0..4] == tmp[..4];
    NumberConverter.Read4Write4(d.year, tmp, 0);
    NumberConverter.Read2Write2(d.day, tmp, 7);
  }

  /** The short form `YYYY-MM-D` of a date with a one-digit day reads as
      that date. */
  lemma ShortDayForm(d: LocalDate, tmp: seq<Char>)
    requires ValidDate(d) && 0 <= d.year <= 9999 && d.day < 10 && 9 <= |tmp|
    requires tmp[..4] == Padded(d.year, 4) && tmp[4] == MINUS && tmp[5..7] == Padded(d.month, 2)
    requires tmp[7] == MINUS && tmp[8] == DigitByte(d.day)
    ensures DeserializeLocalDate(tmp, 9) == Ok(Value(d))
  {
    assert tmp[0..4] == tmp[..4];
    NumberConverter.Read4Write4(d.year, tmp, 0);
    NumberConverter.Read2Write2(d.month, tmp, 5);
    assert tmp[6] == tmp[5..7][1] != MINUS;
    ShortPath(tmp, 9, LocalDate(NumberConverter.Read4(tmp, 0), NumberConverter.Read2(tmp, 5), tmp[8] as int - 48));
  }

  /** The eight-character and the `YYYY-MM-D` branches of
      `deserializeLocalDate` read the date their fields spell. */
  lemma ShortPath(tmp: seq<Char>, len: int, d: LocalDate)
    requires (len == 8 || len == 9) && len <= |tmp| && ValidDate(d) && tmp[4] == MINUS
    requires len == 8 ==> tmp[6] == MINUS && d == LocalDate(NumberConverter.Read4(tmp, 0), tmp[5] as int - 48, tmp[7] as int - 48)
    requires len == 9 ==> tmp[6] != MINUS && tmp[7] == MINUS && d == LocalDate(NumberConverter.Read4(tmp, 0), NumberConverter.Read2(tmp, 5), tmp[8] as int - 48)
    ensures DeserializeLocalDate(tmp, len) == Ok(Value(d))
  {
  }

  /** The time part from position `p`: the clock, then the fraction up to
      `end`. */
  lemma TimeFieldsAt(tmp: seq<Char>, p: int, end: int, t: LocalTime)
    requires ValidTime(t) && 0 <= p <= end <= |tmp|
    requires tmp[p..end] == TimeText(t)
    ensures end == p + 8 + |NanoText(t.nano)|
    ensures tmp[p + 2] == COLON && tmp[p + 5] == COLON
    ensures TimeOf(NumberConverter.Read2(tmp, p), NumberConverter.Read2(tmp, p + 3), NumberConverter.Read2(tmp, p + 6), t.nano) == Ok(t)
    ensures t.nano == 0 ==> end == p + 8
    ensures t.nano != 0 ==>
      end >= p + 10 && tmp[p + 8] == DOT && DigitsBetween(tmp, p + 9, end) && ReadNanos(tmp, end, p + 9) == Ok(t.nano)
  {
    assert tmp[p..p + 8] == tmp[p..end][..8];
    ClockFieldsAt(tmp, p, t);
    if t.nano != 0 {
      assert tmp[p + 8..end] == tmp[p..end][8..];
      ReadNanosWriteNano(tmp, p + 8, end, t.nano);
    }
  }

  /** A time reads back from the string `serialize(LocalTime)` writes. */
  lemma LocalTimeRoundTrip(t: LocalTime, tmp: seq<Char>, len: int)
    requires ValidTime(t) && HoldsString(tmp, len, LocalTimeJson(t))
    ensures DeserializeLocalTime(tmp, len) == Ok(Value(t))
  {
    Unquoted(tmp, len, TimeText(t));
    TimeTextReads(tmp, len, t);
  }

  /** `deserializeLocalTime` on the text of a time. */
  lemma TimeTextReads(tmp: seq<Char>, len: int, t: LocalTime)
    requires ValidTime(t) && 0 <= len <= |tmp| && tmp[..len] == TimeText(t)
    ensures DeserializeLocalTime(tmp, len) == Ok(Value(t))
  {
    assert tmp[0..len] == tmp[..len];
    TimeFieldsHeld(tmp, 0, len, t);
    LocalTimePath(tmp, len, t);
  }

  /** The facts of `TimeFieldsAt`, under `Hold(())`. */
  ghost predicate TimeFields(tmp: seq<Char>, p: int, end: int, t: LocalTime)
    requires ValidTime(t) && 0 <= p <= end <= |tmp|
  {
    forall u: () {:trigger Hold(u)} :: Hold(u) ==> (
    && end == p + 8 + |NanoText(t.nano)|
    && tmp[p + 2] == COLON && tmp[p + 5] == COLON
    && TimeOf(NumberConverter.Read2(tmp, p), NumberConverter.Read2(tmp, p + 3), NumberConverter.Read2(tmp, p + 6), t.nano) == Ok(t)
    && (t.nano == 0 ==> end == p + 8)
    && (t.nano != 0 ==>
          end >= p + 10 && tmp[p + 8] == DOT && DigitsBetween(tmp, p + 9, end) && ReadNanos(tmp, end, p + 9) == Ok(t.nano)))
  }

  /** `TimeFieldsAt`, stated as the predicate `LocalTimePath` takes. */
  lemma TimeFieldsHeld(tmp: seq<Char>, p: int, end: int, t: LocalTime)
    requires ValidTime(t) && 0 <= p <= end <= |tmp|
    requires tmp[p..end] == TimeText(t)
    ensures TimeFields(tmp, p, end, t)
  {
    TimeFieldsAt(tmp, p, end, t);
  }

  /** The path of `deserializeLocalTime` once its pieces read. */
  lemma LocalTimePath(tmp: seq<Char>, len: int, t: LocalTime)
    requires ValidTime(t) && 0 <= len <= |tmp| && TimeFields(tmp, 0, len, t)
    ensures DeserializeLocalTime(tmp, len) == Ok(Value(t))
  {
    assert Hold(());
    if t.nano != 0 {
      assert NanosAfter(tmp, 8, len) == Ok(t.nano);
    }
  }

  /** The date-time part from the start: the date, `T`, the clock and the
      fraction up to `end`. */
  lemma DateTimeFieldsAt(tmp: seq<Char>, end: int, v: LocalDateTime)
    requires ValidDateTime(v) && 0 <= v.date.year <= 9999 && 0 <= end <= |tmp|
    requires tmp[..end] == DateTimeText(v)
    ensures end == 19 + |NanoText(v.time.nano)| && DateTimeShape(tmp)
    ensures DateTimeAt(tmp, v.time.nano) == Ok(v)
    ensures v.time.nano == 0 ==> end == 19
    ensures v.time.nano != 0 ==>
      end >= 21 && tmp[19] == DOT && DigitsBetween(tmp, 20, end) && ReadNanos(tmp, end, 20) == Ok(v.time.nano)
  {
    var text := DateTimeText(v);
    SliceOfSlice(tmp, 0, end, 0, 10);
    SliceOfSlice(tmp, 0, end, 11, end);
    assert tmp[10] == tmp[..end][10] == T;
    DateFieldsAt(tmp, 0, v.date);
    TimeFieldsAt(tmp, 11, end, v.time);
    assert IsTimeSeparator(tmp[10]);
    var d, t := v.date, v.time;
    assert DateTimeAt(tmp, t.nano)
      == DateTimeOf(d.year, d.month, d.day, t.hour, t.minute, t.second, t.nano);
  }

  /** A date-time up to year 9999 reads back from the string
      `serialize(LocalDateTime)` writes. */
  lemma LocalDateTimeRoundTrip(v: LocalDateTime, tmp: seq<Char>, len: int)
    requires ValidDateTime(v) && 0 <= v.date.year <= 9999
    requires HoldsString(tmp, len, LocalDateTimeJson(v))
    ensures DeserializeLocalDateTime(tmp, len) == Ok(Value(v))
  {
    Unquoted(tmp, len, DateTimeText(v));
    DateTimeFieldsAt(tmp, len, v);
  }

  /** `tmp` holding a text and a zone, split at the zone. */
  lemma SplitZone(tmp: seq<Char>, len: int, text: seq<Byte>, zone: seq<Byte>)
    requires HoldsString(tmp, len, [QUOTE] + text + zone + [QUOTE])
    ensures len == |text| + |zone|
    ensures tmp[..|text|] == text && tmp[|text|..len] == zone
  {
    assert [QUOTE] + text + zone + [QUOTE] == [QUOTE] + (text + zone) + [QUOTE];
    Unquoted(tmp, len, text + zone);
    assert tmp[..|text|] == tmp[..len][..|text|];
    assert tmp[|text|..len] == tmp[..len][|text|..];
  }

  /** A date-time at UTC reads back from the string
      `serialize(OffsetDateTime)` writes, by the `Z` path. */
  lemma OffsetDateTimeUtcRoundTrip(v: OffsetDateTime, tmp: seq<Char>, len: int)
    requires ValidDateTime(v.dateTime) && 0 <= v.dateTime.date.year <= 9999 && v.offset == UTC
    requires HoldsString(tmp, len, OffsetDateTimeJson(v))
    ensures DeserializeDateTime(tmp, len) == Ok(Value(v))
    ensures DeserializeDateTimeSigned(tmp, len) == Ok(Value(v))
  {
    SplitZone(tmp, len, DateTimeText(v.dateTime), ZoneId(v.offset));
    assert tmp[len - 1] == ZULU by {
      assert tmp[len - 1] == tmp[len - 1..len][0];
    }
    DateTimeFieldsAt(tmp, len - 1, v.dateTime);
  }

  /** A date-time with an offset of whole minutes other than UTC reads back
      from the string `serialize(OffsetDateTime)` writes, once the minutes
      take the offset's sign; as written, with the offset `AsWrittenOffset`
      gives. */
  lemma OffsetDateTimeZoneRoundTrip(v: OffsetDateTime, tmp: seq<Char>, len: int)
    requires ValidDateTime(v.dateTime) && 0 <= v.dateTime.date.year <= 9999 && ValidOffset(v.offset)
    requires v.offset.totalSeconds != 0 && v.offset.totalSeconds % 60 == 0
    requires HoldsString(tmp, len, OffsetDateTimeJson(v))
    ensures DeserializeDateTimeSigned(tmp, len) == Ok(Value(v))
    ensures DeserializeDateTime(tmp, len) == WithOffset(v.dateTime, AsWrittenOffset(v.offset))
  {
    OffsetDateTimePieces(v, tmp, len);
    OffsetDateTimePath(tmp, len, true, v.dateTime, Ok(v.offset));
    OffsetDateTimePath(tmp, len, false, v.dateTime, AsWrittenOffset(v.offset));
  }

  /** A date-time with the offset read, or the error reading it gave. */
  function WithOffset(dt: LocalDateTime, offset: Result<ZoneOffset>): Result<Parsed<OffsetDateTime>> {
    if offset.Ok? then Ok(Value(OffsetDateTime(dt, offset.value))) else Err(offset.error)
  }

  /** The pieces of the string `serialize(OffsetDateTime)` writes, read at
      their positions. */
  lemma OffsetDateTimePieces(v: OffsetDateTime, tmp: seq<Char>, len: int)
    requires ValidDateTime(v.dateTime) && 0 <= v.dateTime.date.year <= 9999 && ValidOffset(v.offset)
    requires v.offset.totalSeconds != 0 && v.offset.totalSeconds % 60 == 0
    requires HoldsString(tmp, len, OffsetDateTimeJson(v))
    ensures 22 < len < 36 && len <= |tmp| && OffsetSuffix(tmp, len) && tmp[len - 1] != ZULU && DateTimeShape(tmp)
    ensures SuffixOffset(tmp, len, true) == Ok(v.offset)
    ensures SuffixOffset(tmp, len, false) == AsWrittenOffset(v.offset)
    ensures NanosAfter(tmp, 19, len - 6) == Ok(v.dateTime.time.nano)
    ensures DateTimeAt(tmp, v.dateTime.time.nano) == Ok(v.dateTime)
  {
    SplitZone(tmp, len, DateTimeText(v.dateTime), ZoneId(v.offset));
    DateTimeFieldsAt(tmp, len - 6, v.dateTime);
    OffsetSuffixAt(tmp, len, v.offset);
  }

  /** The offset path of `deserializeDateTime` once its pieces read. */
  lemma OffsetDateTimePath(tmp: seq<Char>, len: int, signedMinutes: bool, dt: LocalDateTime, offset: Result<ZoneOffset>)
    requires 22 < len < 36 && len <= |tmp| && OffsetSuffix(tmp, len) && tmp[len - 1] != ZULU && DateTimeShape(tmp)
    requires SuffixOffset(tmp, len, signedMinutes) == offset
    requires NanosAfter(tmp, 19, len - 6) == Ok(dt.time.nano)
    requires DateTimeAt(tmp, dt.time.nano) == Ok(dt)
    ensures ParseOffsetDateTime(tmp, len, signedMinutes) == WithOffset(dt, offset)
  {
  }

  /** Every date-time with an offset of whole minutes reads back once the
      minutes take the offset's sign; as written, unless the offset is
      negative with minutes. */
  lemma OffsetDateTimeRoundTrip(v: OffsetDateTime, tmp: seq<Char>, len: int)
    requires ValidDateTime(v.dateTime) && 0 <= v.dateTime.date.year <= 9999 && ValidOffset(v.offset)
    requires v.offset.totalSeconds % 60 == 0
    requires HoldsString(tmp, len, OffsetDateTimeJson(v))
    ensures DeserializeDateTimeSigned(tmp, len) == Ok(Value(v))
    ensures v.offset.totalSeconds >= 0 || v.offset.totalSeconds % 3600 == 0 ==> DeserializeDateTime(tmp, len) == Ok(Value(v))
  {
    if v.offset.totalSeconds == 0 {
      OffsetDateTimeUtcRoundTrip(v, tmp, len);
    } else {
      OffsetDateTimeZoneRoundTrip(v, tmp, len);
      if v.offset.totalSeconds >= 0 || v.offset.totalSeconds % 3600 == 0 {
        assert AsWrittenOffset(v.offset) == Ok(v.offset);
        assert WithOffset(v.dateTime, Ok(v.offset)) == Ok(Value(v));
      }
    }
  }

  /** A time at UTC reads back from the string `serialize(OffsetTime)`
      writes, by the `Z` path. */
  lemma OffsetTimeUtcRoundTrip(v: OffsetTime, tmp: seq<Char>, len: int)
    requires ValidTime(v.time) && v.offset == UTC
    requires HoldsString(tmp, len, OffsetTimeJson(v))
    ensures DeserializeOffsetTime(tmp, len) == Ok(Value(v))
    ensures DeserializeOffsetTimeSigned(tmp, len) == Ok(Value(v))
  {
    SplitZone(tmp, len, TimeText(v.time), ZoneId(v.offset));
    assert tmp[len - 1] == ZULU by {
      assert tmp[len - 1] == tmp[len - 1..len][0];
    }
    assert tmp[0..len - 1] == tmp[..len - 1];
    TimeFieldsAt(tmp, 0, len - 1, v.time);
  }

  /** A time with an offset of whole minutes other than UTC reads back from
      the string `serialize(OffsetTime)` writes, once the minutes take the
      offset's sign; as written, with the offset `AsWrittenOffset` gives. */
  lemma OffsetTimeZoneRoundTrip(v: OffsetTime, tmp: seq<Char>, len: int)
    requires ValidTime(v.time) && ValidOffset(v.offset)
    requires v.offset.totalSeconds != 0 && v.offset.totalSeconds % 60 == 0
    requires HoldsString(tmp, len, OffsetTimeJson(v))
    ensures DeserializeOffsetTimeSigned(tmp, len) == Ok(Value(v))
    ensures DeserializeOffsetTime(tmp, len) == TimeWithOffset(v.time, AsWrittenOffset(v.offset))
  {
    OffsetTimePieces(v, tmp, len);
    OffsetTimePath(tmp, len, true, v.time, Ok(v.offset));
    OffsetTimePath(tmp, len, false, v.time, AsWrittenOffset(v.offset));
  }

  /** A time with the offset read, or the error reading it gave. */
  function TimeWithOffset(t: LocalTime, offset: Result<ZoneOffset>): Result<Parsed<OffsetTime>> {
    if offset.Ok? then Ok(Value(OffsetTime(t, offset.value))) else Err(offset.error)
  }

  /** The pieces of the string `serialize(OffsetTime)` writes, read at
      their positions. */
  lemma OffsetTimePieces(v: OffsetTime, tmp: seq<Char>, len: int)
    requires ValidTime(v.time) && ValidOffset(v.offset)
    requires v.offset.totalSeconds != 0 && v.offset.totalSeconds % 60 == 0
    requires HoldsString(tmp, len, OffsetTimeJson(v))
    ensures 11 < len < 25 && len <= |tmp| && OffsetSuffix(tmp, len) && tmp[len - 1] != ZULU
    ensures tmp[2] == COLON && tmp[5] == COLON
    ensures SuffixOffset(tmp, len, true) == Ok(v.offset)
    ensures SuffixOffset(tmp, len, false) == AsWrittenOffset(v.offset)
    ensures NanosAfter(tmp, 8, len - 6) == Ok(v.time.nano)
    ensures TimeOf(NumberConverter.Read2(tmp, 0), NumberConverter.Read2(tmp, 3), NumberConverter.Read2(tmp, 6), v.time.nano) == Ok(v.time)
  {
    SplitZone(tmp, len, TimeText(v.time), ZoneId(v.offset));
    OffsetSuffixAt(tmp, len, v.offset);
    TimeBeforeMark(tmp, len - 6, v.time);
  }

  /** A time followed by a character other than `.` reads back with its
      nanoseconds. */
  lemma TimeBeforeMark(tmp: seq<Char>, end: int, t: LocalTime)
    requires ValidTime(t) && 0 <= end < |tmp| && tmp[..end] == TimeText(t) && tmp[end] != DOT
    ensures 8 <= end <= 18 && tmp[2] == COLON && tmp[5] == COLON
    ensures NanosAfter(tmp, 8, end) == Ok(t.nano)
    ensures TimeOf(NumberConverter.Read2(tmp, 0), NumberConverter.Read2(tmp, 3), NumberConverter.Read2(tmp, 6), t.nano) == Ok(t)
  {
    assert tmp[0..end] == tmp[..end];
    TimeFieldsAt(tmp, 0, end, t);
  }

  /** The offset path of `deserializeOffsetTime` once its pieces read. */
  lemma OffsetTimePath(tmp: seq<Char>, len: int, signedMinutes: bool, t: LocalTime, offset: Result<ZoneOffset>)
    requires 11 < len < 25 && len <= |tmp| && OffsetSuffix(tmp, len) && tmp[len - 1] != ZULU
    requires tmp[2] == COLON && tmp[5] == COLON
    requires SuffixOffset(tmp, len, signedMinutes) == offset
    requires NanosAfter(tmp, 8, len - 6) == Ok(t.nano)
    requires TimeOf(NumberConverter.Read2(tmp, 0), NumberConverter.Read2(tmp, 3), NumberConverter.Read2(tmp, 6), t.nano) == Ok(t)
    ensures ParseOffsetTime(tmp, len, signedMinutes) == TimeWithOffset(t, offset)
  {
  }

  /** Every time with an offset of whole minutes reads back once the
      minutes take the offset's sign; as written, unless the offset is
      negative with minutes. */
  lemma OffsetTimeRoundTrip(v: OffsetTime, tmp: seq<Char>, len: int)
    requires ValidTime(v.time) && ValidOffset(v.offset) && v.offset.totalSeconds % 60 == 0
    requires HoldsString(tmp, len, OffsetTimeJson(v))
    ensures DeserializeOffsetTimeSigned(tmp, len) == Ok(Value(v))
    ensures v.offset.totalSeconds >= 0 || v.offset.totalSeconds % 3600 == 0 ==> DeserializeOffsetTime(tmp, len) == Ok(Value(v))
  {
    if v.offset.totalSeconds == 0 {
      OffsetTimeUtcRoundTrip(v, tmp, len);
    } else {
      OffsetTimeZoneRoundTrip(v, tmp, len);
      if v.offset.totalSeconds >= 0 || v.offset.totalSeconds % 3600 == 0 {
        assert AsWrittenOffset(v.offset) == Ok(v.offset);
        assert TimeWithOffset(v.time, Ok(v.offset)) == Ok(Value(v));
      }
    }
  }
}

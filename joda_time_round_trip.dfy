/** What `JodaTimeConverter` writes, it reads back: a UTC `DateTime` and a
    `LocalDate` with a four-digit year come back from the characters
    between the quotes of their JSON strings by the fast paths; a
    `DateTime` in any other zone ends in its offset, not in `Z`, and goes
    to the parser. */
module JodaTimeRoundTrip {
  import opened Java
  import opened DecimalText
  import opened DateLayout
  import opened JodaTime
  import opened JodaTimeConverter
  import JavaTimeReading
  import JavaTime
  import NumberConverter
  import JavaTimeRoundTrip

  /** The characters between the quotes of a `DateTime`'s string. */
  function DateTimeChars(v: DateTime): (r: seq<Byte>)
    requires ValidDateTime(v) && 0 <= v.year <= 9999
    ensures DateTimeJson(v) == [QUOTE] + r + [QUOTE]
    ensures |r| == 19 + |MillisText(v.millis)| + |ZoneText(v.zone)|
  {
    var r := DateText(v.year, v.month, v.day) + [T] + ClockText(v.hour, v.minute, v.second) + MillisText(v.millis) + ZoneText(v.zone);
    assert DateTimeJson(v) == [QUOTE] + r + [QUOTE];
    r
  }

  /** The date and the clock of a `DateTime`'s string, read at their
      positions. */
  lemma FieldsAt(v: DateTime, tmp: seq<Char>, len: int)
    requires ValidDateTime(v) && 0 <= v.year <= 9999 && 19 <= len <= |tmp|
    requires tmp[..19] == DateText(v.year, v.month, v.day) + [T] + ClockText(v.hour, v.minute, v.second)
    ensures JavaTimeReading.DateTimeShape(tmp)
    ensures NumberConverter.Read4(tmp, 0) == v.year
    ensures NumberConverter.Read2(tmp, 5) == v.month && NumberConverter.Read2(tmp, 8) == v.day
    ensures NumberConverter.Read2(tmp, 11) == v.hour && NumberConverter.Read2(tmp, 14) == v.minute
    ensures NumberConverter.Read2(tmp, 17) == v.second
  {
    var date := DateText(v.year, v.month, v.day);
    var clock := ClockText(v.hour, v.minute, v.second);
    JavaTimeRoundTrip.SliceOfSlice(tmp, 0, 19, 0, 10);
    JavaTimeRoundTrip.SliceOfSlice(tmp, 0, 19, 11, 19);
    assert tmp[0..10] == date;
    assert tmp[11..19] == clock;
    assert tmp[10] == tmp[..19][10] == T;
    JavaTimeRoundTrip.DateFieldsAt(tmp, 0, JavaTime.LocalDate(v.year, v.month, v.day));
    JavaTimeRoundTrip.ClockFieldsAt(tmp, 11, JavaTime.LocalTime(v.hour, v.minute, v.second, 0));
  }

  /** The milliseconds after the seconds and the `Z` that ends the string
      of a UTC `DateTime`, read as `deserializeDateTime` reads them. */
  lemma MillisThenZulu(millis: int, tmp: seq<Char>, len: int)
    requires 0 <= millis < 1000 && 20 <= len <= |tmp|
    requires tmp[19..len] == MillisText(millis) + [ZULU]
    ensures len == 20 + |MillisText(millis)| && tmp[len - 1] == ZULU
    ensures millis == 0 ==> tmp[19] != DOT
    ensures millis != 0 ==> tmp[19] == DOT && MillisAt(tmp, len) == Ok(millis)
  {
    var m := MillisText(millis);
    assert tmp[len - 1] == tmp[19..len][len - 20];
    assert tmp[19] == tmp[19..len][0];
    if millis != 0 {
      if millis % 100 == 0 {
        TenthsAt(millis, tmp, len);
      } else {
        ThousandthsAt(millis, tmp, len);
      }
    }
  }

  /** Whole tenths of a second: one digit after the point. */
  lemma TenthsAt(millis: int, tmp: seq<Char>, len: int)
    requires 0 < millis < 1000 && millis % 100 == 0 && 20 <= len <= |tmp|
    requires tmp[19..len] == MillisText(millis) + [ZULU]
    ensures len == 22 && MillisAt(tmp, len) == Ok(millis)
  {
    var m := MillisText(millis);
    assert tmp[20] == tmp[19..len][1] == m[1];
  }

  /** Other milliseconds: three digits after the point. */
  lemma ThousandthsAt(millis: int, tmp: seq<Char>, len: int)
    requires 0 < millis < 1000 && millis % 100 != 0 && 20 <= len <= |tmp|
    requires tmp[19..len] == MillisText(millis) + [ZULU]
    ensures len == 24 && MillisAt(tmp, len) == Ok(millis)
  {
    var m := MillisText(millis);
    assert tmp[20] == tmp[19..len][1] == m[1];
    assert tmp[21] == tmp[19..len][2] == m[2];
    assert tmp[22] == tmp[19..len][3] == m[3];
    assert m[1..] == Padded(millis, 3);
    Padded3(millis);
  }

  /** A UTC `DateTime` with a four-digit year reads back from the string
      `serialize(DateTime, sw)` writes. */
  lemma DateTimeUtcRoundTrip(v: DateTime, tmp: seq<Char>, len: int)
    requires ValidDateTime(v) && 0 <= v.year <= 9999 && v.zone == Utc
    requires JavaTimeRoundTrip.HoldsString(tmp, len, DateTimeJson(v))
    ensures DeserializeDateTime(tmp, len) == Ok(JavaTimeReading.Value(v))
  {
    var head := DateText(v.year, v.month, v.day) + [T] + ClockText(v.hour, v.minute, v.second);
    var text := DateTimeChars(v);
    JavaTimeRoundTrip.Unquoted(tmp, len, text);
    assert text == head + (MillisText(v.millis) + [ZULU]);
    JavaTimeRoundTrip.SliceOfSlice(tmp, 0, len, 0, 19);
    JavaTimeRoundTrip.SliceOfSlice(tmp, 0, len, 19, len);
    FieldsAt(v, tmp, len);
    MillisThenZulu(v.millis, tmp, len);
  }

  /** A `DateTime` in any other zone ends in the minutes of its offset, so
      `deserializeDateTime` hands it to the parser. */
  lemma DateTimeZoneFallback(v: DateTime, tmp: seq<Char>, len: int)
    requires ValidDateTime(v) && 0 <= v.year <= 9999 && v.zone.Fixed?
    requires JavaTimeRoundTrip.HoldsString(tmp, len, DateTimeJson(v))
    ensures DeserializeDateTime(tmp, len) == Ok(JavaTimeReading.Fallback(DateTimeChars(v)))
  {
    var text := DateTimeChars(v);
    JavaTimeRoundTrip.Unquoted(tmp, len, text);
    ZoneTextValue(v.zone);
    var z := ZoneText(v.zone);
    assert text[len - 1] == z[5];
    assert IsDigit(z[4..][1]);
    assert tmp[len - 1] == text[len - 1];
  }

  /** A `LocalDate` with a four-digit year reads back from the string
      `serialize(LocalDate, sw)` writes. */
  lemma LocalDateRoundTrip(d: LocalDate, tmp: seq<Char>, len: int)
    requires ValidLocalDate(d) && 0 <= d.year <= 9999
    requires JavaTimeRoundTrip.HoldsString(tmp, len, LocalDateJson(d))
    ensures DeserializeLocalDate(tmp, len) == Ok(JavaTimeReading.Value(d))
  {
    JavaTimeRoundTrip.Unquoted(tmp, len, DateText(d.year, d.month, d.day));
    assert tmp[0..10] == tmp[..len];
    JavaTimeRoundTrip.DateFieldsAt(tmp, 0, JavaTime.LocalDate(d.year, d.month, d.day));
  }
}

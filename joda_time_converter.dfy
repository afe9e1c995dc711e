/** The converter for Joda-Time values (`JodaTimeConverter`): a `DateTime`
    is written as `YYYY-MM-DDTHH:MM:SS`, its milliseconds and its zone, a
    `LocalDate` as `YYYY-MM-DD`, both at fixed offsets of the writer's
    buffer; the readers take a UTC date-time and a plain date by a fast
    path and hand every other text to Joda's ISO parsers, which are not
    part of this model and appear as `Fallback`. */
module JodaTimeConverter {
  import opened Java
  import opened DecimalText
  import opened DateLayout
  import opened JodaTime
  import opened JavaTimeReading
  import NumberConverter
  import JsonWriter

  // ---------------------------------------------------------------------
  // Writing

  /** `writeTimezone(buf, position, dt, sw)`: `Z` and the closing quote for
      UTC, otherwise the sign, `HH:MM` of the offset's size and the quote;
      the number of bytes stored, 2 or 7, is returned. (A `DateTime` always
      has a zone, so the `zone == null` test never holds.) */
  method WriteTimezone(buf: array<Byte>, position: int, dt: DateTime) returns (n: int)
    requires ValidZone(dt.zone) && 0 <= position && position + |ZoneText(dt.zone)| + 1 <= buf.Length
    modifies buf
    ensures n == |ZoneText(dt.zone)| + 1 && (n == 2 || n == 7)
    ensures Wrote(buf[..], old(buf[..]), position, ZoneText(dt.zone) + [QUOTE])
  {
    if dt.zone.Utc? {
      StoreByte(buf, position, ZULU);
      ghost var b1 := buf[..];
      StoreByte(buf, position + 1, QUOTE);
      WroteThen(old(buf[..]), b1, buf[..], position, [ZULU], [QUOTE]);
      return 2;
    }
    var off := dt.zone.offsetMillis;
    var sign := PLUS;
    if off < 0 {
      sign := MINUS;
      off := -off;
    }
    var hours := off / 3_600_000;
    var remainder := off - hours * 3_600_000;
    StoreOffset(buf, position, sign, hours, remainder / 60_000);
    OffsetText(dt.zone);
    return 7;
  }

  /** The text of an offset other than UTC in the terms `writeTimezone`
      computes it: the hours of the size, and the minutes of what is left. */
  lemma OffsetText(z: Zone)
    requires ValidZone(z) && z.Fixed?
    ensures var size := if z.offsetMillis < 0 then -z.offsetMillis else z.offsetMillis;
      var hours := size / 3_600_000;
      && 0 <= hours < 24 && 0 <= (size - hours * 3_600_000) / 60_000 < 60
      && ZoneText(z) == [if z.offsetMillis < 0 then MINUS else PLUS] + Padded(hours, 2) + [COLON]
         + Padded((size - hours * 3_600_000) / 60_000, 2)
  {
    var size := if z.offsetMillis < 0 then -z.offsetMillis else z.offsetMillis;
    DivModUnique(size, 3_600_000, size / 3_600_000, size - size / 3_600_000 * 3_600_000);
  }

  /** The sign, `write2` of the hours, `:`, `write2` of the minutes and the
      closing quote. */
  method StoreOffset(buf: array<Byte>, position: int, sign: Byte, hours: int, minutes: int)
    requires 0 <= hours < 100 && 0 <= minutes < 100 && 0 <= position && position + 7 <= buf.Length
    modifies buf
    ensures Wrote(buf[..], old(buf[..]), position, [sign] + Padded(hours, 2) + [COLON] + Padded(minutes, 2) + [QUOTE])
  {
    StoreByte(buf, position, sign);
    ghost var b1 := buf[..];
    StorePair(buf, position + 1, hours, COLON);
    WroteThen(old(buf[..]), b1, buf[..], position, [sign], Padded(hours, 2) + [COLON]);
    ghost var b2 := buf[..];
    NumberConverter.Write2(minutes, buf, position + 4);
    WroteThen(old(buf[..]), b2, buf[..], position, [sign] + (Padded(hours, 2) + [COLON]), Padded(minutes, 2));
    ghost var b3 := buf[..];
    StoreByte(buf, position + 6, QUOTE);
    WroteThen(old(buf[..]), b3, buf[..], position, [sign] + (Padded(hours, 2) + [COLON]) + Padded(minutes, 2), [QUOTE]);
    assert [sign] + (Padded(hours, 2) + [COLON]) + Padded(minutes, 2) + [QUOTE] == [sign] + Padded(hours, 2) + [COLON] + Padded(minutes, 2) + [QUOTE];
  }

  /** The three digits of the milliseconds as `serialize` stores them: the
      hundreds as one byte, then `write2` of the rest. */
  lemma MillisDigits(millis: int)
    requires 0 <= millis < 1000
    ensures [DigitByte(millis / 100)] + Padded(millis - millis / 100 * 100, 2) == Padded(millis, 3)
  {
    var h := millis / 100;
    var lo := millis - h * 100;
    DivModUnique(millis, 10, h * 10 + lo / 10, lo % 10);
    DivModUnique(millis / 10, 10, h, lo / 10);
    DivModUnique(lo / 10, 10, 0, lo / 10);
    Padded3(millis);
    Padded2(lo);
  }

  /** The milliseconds as `serialize(DateTime, sw)` stores them after the
      seconds: nothing for zero, otherwise a dot and the hundreds as one
      byte, then `write2` of the rest unless it is zero. The number of
      bytes stored is returned; each branch of the source then calls
      `writeTimezone` at the position this leaves. */
  method StoreMillis(buf: array<Byte>, at: int, milis: int) returns (k: int)
    requires 0 <= milis < 1000 && 0 <= at && at + 4 <= buf.Length
    modifies buf
    ensures k == |MillisText(milis)|
    ensures Wrote(buf[..], old(buf[..]), at, MillisText(milis))
  {
    if milis == 0 {
      WroteNothing(buf[..], at);
      return 0;
    }
    StoreByte(buf, at, DOT);
    var hi := milis / 100;
    var lo := milis - hi * 100;
    ghost var b1 := buf[..];
    StoreByte(buf, at + 1, DigitByte(hi));
    WroteThen(old(buf[..]), b1, buf[..], at, [DOT], [DigitByte(hi)]);
    if lo != 0 {
      ghost var b2 := buf[..];
      NumberConverter.Write2(lo, buf, at + 2);
      WroteThen(old(buf[..]), b2, buf[..], at, [DOT] + [DigitByte(hi)], Padded(lo, 2));
      MillisDigits(milis);
      assert [DOT] + [DigitByte(hi)] + Padded(lo, 2) == MillisText(milis);
      return 4;
    }
    assert [DOT] + [DigitByte(hi)] == MillisText(milis);
    return 2;
  }

  /** `serialize(DateTime, sw)`: after `ensureCapacity(32)` the quote, the
      date, `T`, the clock, the milliseconds and the zone are stored and
      the writer advances past them. A year above 9999 makes `write4`
      throw, and nothing is written. */
  method SerializeDateTime(value: DateTime, sw: JsonWriter.JsonWriter) returns (r: Result<()>)
    requires sw.Valid() && ValidDateTime(value) && 0 <= value.year
    modifies sw, sw.result
    ensures sw.Valid() && (sw.result == old(sw.result) || fresh(sw.result))
    ensures r.Err? <==> 9999 < value.year
    ensures r.Err? ==> r.error.IllegalArgument? && sw.Contents() == old(sw.Contents())
    ensures r.Ok? ==> sw.Contents() == old(sw.Contents()) + DateTimeJson(value)
  {
    sw.EnsureCapacity(32);
    var buf := sw.result;
    var pos := sw.Size();
    ghost var b := buf[..];
    if 9999 < value.year {
      r := RefuseYear(buf, pos, value.year);
      return;
    }
    var n := StoreDateTimeValue(buf, pos, value);
    WrotePrefix(buf[..], b, pos, DateTimeJson(value));
    sw.Advance(n);
    r := Ok(());
  }

  /** The stores of `serialize(DateTime, sw)` for a year of four digits,
      from `pos`; the number of bytes stored is returned. */
  method StoreDateTimeValue(buf: array<Byte>, pos: int, value: DateTime) returns (n: int)
    requires ValidDateTime(value) && 0 <= value.year <= 9999 && 0 <= pos && pos + 31 <= buf.Length
    modifies buf
    ensures n == |DateTimeJson(value)| && Wrote(buf[..], old(buf[..]), pos, DateTimeJson(value))
  {
    StoreDateTime(buf, pos, value.year, value.month, value.day, value.hour, value.minute, value.second);
    ghost var head := [QUOTE] + DateText(value.year, value.month, value.day) + [T] + ClockText(value.hour, value.minute, value.second);
    ghost var b1 := buf[..];
    var k := StoreMillis(buf, pos + 20, value.millis);
    WroteThen(old(buf[..]), b1, buf[..], pos, head, MillisText(value.millis));
    ghost var b2 := buf[..];
    var z := WriteTimezone(buf, pos + 20 + k, value);
    WroteThen(old(buf[..]), b2, buf[..], pos, head + MillisText(value.millis), ZoneText(value.zone) + [QUOTE]);
    assert head + MillisText(value.millis) + (ZoneText(value.zone) + [QUOTE]) == DateTimeJson(value);
    n := 20 + k + z;
  }

  /** `serialize(LocalDate, sw)`: after `ensureCapacity(12)` the quote, the
      date and the quote. A year above 9999 makes `write4` throw, and
      nothing is written. */
  method SerializeLocalDate(value: LocalDate, sw: JsonWriter.JsonWriter) returns (r: Result<()>)
    requires sw.Valid() && ValidLocalDate(value) && 0 <= value.year
    modifies sw, sw.result
    ensures sw.Valid() && (sw.result == old(sw.result) || fresh(sw.result))
    ensures r.Err? <==> 9999 < value.year
    ensures r.Err? ==> r.error.IllegalArgument? && sw.Contents() == old(sw.Contents())
    ensures r.Ok? ==> sw.Contents() == old(sw.Contents()) + LocalDateJson(value)
  {
    sw.EnsureCapacity(12);
    var buf := sw.result;
    var pos := sw.Size();
    ghost var b := buf[..];
    if 9999 < value.year {
      r := RefuseYear(buf, pos, value.year);
      return;
    }
    StoreLocalDate(buf, pos, value);
    WrotePrefix(buf[..], b, pos, LocalDateJson(value));
    sw.Advance(12);
    r := Ok(());
  }

  /** The twelve bytes of a date with a four-digit year, from `pos`. */
  method StoreLocalDate(buf: array<Byte>, pos: int, value: LocalDate)
    requires ValidLocalDate(value) && 0 <= value.year <= 9999 && 0 <= pos && pos + 12 <= buf.Length
    modifies buf
    ensures Wrote(buf[..], old(buf[..]), pos, LocalDateJson(value))
  {
    StoreByte(buf, pos, QUOTE);
    ghost var b1 := buf[..];
    StoreDate(buf, pos + 1, value.year, value.month, value.day);
    WroteThen(old(buf[..]), b1, buf[..], pos, [QUOTE], DateText(value.year, value.month, value.day));
    ghost var b2 := buf[..];
    StoreByte(buf, pos + 11, QUOTE);
    WroteThen(old(buf[..]), b2, buf[..], pos, [QUOTE] + DateText(value.year, value.month, value.day), [QUOTE]);
  }

  /** The opening quote is stored and `write4` throws for a year above
      9999; the bytes before `pos` are untouched. */
  method RefuseYear(buf: array<Byte>, pos: int, year: int) returns (r: Result<()>)
    requires 9999 < year && IsInt(year) && 0 <= pos && pos + 5 <= buf.Length
    modifies buf
    ensures r.Err? && r.error.IllegalArgument? && buf[..pos] == old(buf[..pos])
  {
    StoreByte(buf, pos, QUOTE);
    WroteKeeps(buf[..], old(buf[..]), pos, [QUOTE]);
    ghost var b1 := buf[..];
    r := NumberConverter.Write4(year, buf, pos + 1);
    assert buf[..pos] == b1[..pos];
  }

  // ---------------------------------------------------------------------
  // Reading

  /** The milliseconds after a dot at 19, chosen by the length: one digit
      for 22 characters, two for 23, three otherwise; the third reads
      `tmp[22]` whatever the length. */
  function MillisAt(tmp: seq<Char>, len: int): (r: Result<int>)
    requires 22 <= len <= |tmp| || (19 <= len <= |tmp| && len != 22 && len != 23)
    ensures r.Err? <==> len != 22 && len != 23 && |tmp| <= 22
    ensures r.Err? ==> r.error == IndexOutOfBounds
  {
    if len == 22 then Ok(100 * (tmp[20] as int - 48))
    else if len == 23 then Ok(100 * (tmp[20] as int - 48) + 10 * (tmp[21] as int - 48))
    else if |tmp| <= 22 then Err(IndexOutOfBounds)
    else Ok(100 * (tmp[20] as int - 48) + 10 * (tmp[21] as int - 48) + tmp[22] as int - 48)
  }

  /** `deserializeDateTime(reader)`: 19 to 24 characters ending in `Z`,
      with the date and clock separators in place, are read as a UTC
      date-time, with milliseconds when a dot follows the seconds; every
      other text goes to the parser. The fields are not checked to be
      digits. */
  function DeserializeDateTime(tmp: seq<Char>, len: int): (r: Result<Parsed<DateTime>>)
    requires 0 <= len <= |tmp|
    ensures r.Ok? && r.value.Value? ==> ValidDateTime(r.value.value) && r.value.value.zone == Utc
    ensures r.Ok? && r.value.Fallback? ==> r.value.text == tmp[..len]
    ensures r.Err? ==> r.error == IllegalArgument(FIELD_OUT_OF_RANGE) || r.error == IndexOutOfBounds
    ensures (len < 19 || 24 < len || tmp[len - 1] != ZULU) ==> r == Ok(Fallback(tmp[..len]))
  {
    if 18 < len < 25 && tmp[len - 1] == ZULU && DateTimeShape(tmp) then
      var year := NumberConverter.Read4(tmp, 0);
      var month := NumberConverter.Read2(tmp, 5);
      var day := NumberConverter.Read2(tmp, 8);
      var hour := NumberConverter.Read2(tmp, 11);
      var min := NumberConverter.Read2(tmp, 14);
      var sec := NumberConverter.Read2(tmp, 17);
      if |tmp| <= 19 then Err(IndexOutOfBounds)
      else if tmp[19] == DOT then
        var milis :- MillisAt(tmp, len);
        var v :- DateTimeOf(year, month, day, hour, min, sec, milis, Utc);
        Ok(Value(v))
      else
        var v :- DateTimeOf(year, month, day, hour, min, sec, 0, Utc);
        Ok(Value(v))
    else Ok(Fallback(tmp[..len]))
  }

  /** `deserializeLocalDate(reader)`: ten characters with `-` at 4 and 7
      are read as a date; every other text goes to the parser. */
  function DeserializeLocalDate(tmp: seq<Char>, len: int): (r: Result<Parsed<LocalDate>>)
    requires 0 <= len <= |tmp|
    ensures r.Ok? && r.value.Value? ==> ValidLocalDate(r.value.value)
    ensures r.Ok? && r.value.Fallback? ==> r.value.text == tmp[..len]
    ensures r.Err? ==> r.error == IllegalArgument(FIELD_OUT_OF_RANGE)
    ensures len != 10 ==> r == Ok(Fallback(tmp[..len]))
  {
    if len == 10 && tmp[4] == MINUS && tmp[7] == MINUS then
      var d :- LocalDateOf(NumberConverter.Read4(tmp, 0), NumberConverter.Read2(tmp, 5), NumberConverter.Read2(tmp, 8));
      Ok(Value(d))
    else Ok(Fallback(tmp[..len]))
  }
}

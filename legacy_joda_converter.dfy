/** The older `JodaTimeConverter`: the same layout, stored from the start
    of the writer's scratch buffer `tmp` with the older `NumberConverter`
    and handed to the writer by `writeBuffer(n)`, which copies the first
    `n` bytes of `tmp`. Each serializer here returns those bytes. Its
    readers are the same text as the newer ones and are modelled once, by
    `JodaTimeConverter.DeserializeDateTime` and
    `JodaTimeConverter.DeserializeLocalDate`. */
module LegacyJodaConverter {
  import opened Java
  import opened DecimalText
  import opened DateLayout
  import opened JodaTime
  import JodaTimeConverter
  import LegacyNumbers

  /** Older `write2(value, buf, pos)` followed by a separator byte. */
  method StorePair(buf: array<Byte>, pos: int, value: int, sep: Byte)
    requires 0 <= value < 100 && 0 <= pos && pos + 3 <= buf.Length
    modifies buf
    ensures Wrote(buf[..], old(buf[..]), pos, Padded(value, 2) + [sep])
  {
    LegacyNumbers.Write2(value, buf, pos);
    ghost var b := buf[..];
    StoreByte(buf, pos + 2, sep);
    WroteThen(old(buf[..]), b, buf[..], pos, Padded(value, 2), [sep]);
  }

  /** `writeTimezone(buf, position, dt, sw)`: `Z` and the quote for UTC,
      otherwise the sign, `HH:MM` of the offset's size and the quote; then
      `writeBuffer` hands everything stored so far, up to the quote, to the
      writer. */
  method WriteTimezone(buf: array<Byte>, position: int, dt: DateTime) returns (bytes: seq<Byte>)
    requires ValidZone(dt.zone) && 0 <= position && position + |ZoneText(dt.zone)| + 1 <= buf.Length
    modifies buf
    ensures bytes == old(buf[..position]) + ZoneText(dt.zone) + [QUOTE]
  {
    var n := StoreZone(buf, position, dt);
    WrotePrefix(buf[..], old(buf[..]), position, ZoneText(dt.zone) + [QUOTE]);
    return buf[..position + n];
  }

  /** The stores of `writeTimezone`; the number of bytes stored is
      returned. */
  method StoreZone(buf: array<Byte>, position: int, dt: DateTime) returns (n: int)
    requires ValidZone(dt.zone) && 0 <= position && position + |ZoneText(dt.zone)| + 1 <= buf.Length
    modifies buf
    ensures n == |ZoneText(dt.zone)| + 1
    ensures Wrote(buf[..], old(buf[..]), position, ZoneText(dt.zone) + [QUOTE])
  {
    if dt.zone.Utc? {
      StoreByte(buf, position, ZULU);
      ghost var b1 := buf[..];
      StoreByte(buf, position + 1, QUOTE);
      WroteThen(old(buf[..]), b1, buf[..], position, [ZULU], [QUOTE]);
      return 2;
    }
    var off := dt.zone.offsetMillis;
    var sign := PLUS;
    if off < 0 {
      sign := MINUS;
      off := -off;
    }
    var hours := off / 3_600_000;
    var remainder := off - hours * 3_600_000;
    StoreOffset(buf, position, sign, hours, remainder / 60_000);
    JodaTimeConverter.OffsetText(dt.zone);
    return 7;
  }

  /** The sign, older `write2` of the hours, `:`, older `write2` of the
      minutes and the closing quote. */
  method StoreOffset(buf: array<Byte>, position: int, sign: Byte, hours: int, minutes: int)
    requires 0 <= hours < 100 && 0 <= minutes < 100 && 0 <= position && position + 7 <= buf.Length
    modifies buf
    ensures Wrote(buf[..], old(buf[..]), position, [sign] + Padded(hours, 2) + [COLON] + Padded(minutes, 2) + [QUOTE])
  {
    StoreByte(buf, position, sign);
    ghost var b1 := buf[..];
    StorePair(buf, position + 1, hours, COLON);
    WroteThen(old(buf[..]), b1, buf[..], position, [sign], Padded(hours, 2) + [COLON]);
    ghost var b2 := buf[..];
    LegacyNumbers.Write2(minutes, buf, position + 4);
    WroteThen(old(buf[..]), b2, buf[..], position, [sign] + (Padded(hours, 2) + [COLON]), Padded(minutes, 2));
    ghost var b3 := buf[..];
    StoreByte(buf, position + 6, QUOTE);
    WroteThen(old(buf[..]), b3, buf[..], position, [sign] + (Padded(hours, 2) + [COLON]) + Padded(minutes, 2), [QUOTE]);
    assert [sign] + (Padded(hours, 2) + [COLON]) + Padded(minutes, 2) + [QUOTE] == [sign] + Padded(hours, 2) + [COLON] + Padded(minutes, 2) + [QUOTE];
  }

  /** The milliseconds after the seconds, with the older `write2`; the
      number of bytes stored is returned. */
  method StoreMillis(buf: array<Byte>, at: int, milis: int) returns (k: int)
    requires 0 <= milis < 1000 && 0 <= at && at + 4 <= buf.Length
    modifies buf
    ensures k == |MillisText(milis)|
    ensures Wrote(buf[..], old(buf[..]), at, MillisText(milis))
  {
    if milis == 0 {
      WroteNothing(buf[..], at);
      return 0;
    }
    StoreByte(buf, at, DOT);
    var hi := milis / 100;
    var lo := milis - hi * 100;
    ghost var b1 := buf[..];
    StoreByte(buf, at + 1, DigitByte(hi));
    WroteThen(old(buf[..]), b1, buf[..], at, [DOT], [DigitByte(hi)]);
    if lo != 0 {
      ghost var b2 := buf[..];
      LegacyNumbers.Write2(lo, buf, at + 2);
      WroteThen(old(buf[..]), b2, buf[..], at, [DOT] + [DigitByte(hi)], Padded(lo, 2));
      JodaTimeConverter.MillisDigits(milis);
      assert [DOT] + [DigitByte(hi)] + Padded(lo, 2) == MillisText(milis);
      return 4;
    }
    assert [DOT] + [DigitByte(hi)] == MillisText(milis);
    return 2;
  }

  /** `-MM-DD` after the year, with the older `write2`. */
  method StoreMonthDay(buf: array<Byte>, pos: int, month: int, day: int)
    requires 0 <= month < 100 && 0 <= day < 100 && 0 <= pos && pos + 6 <= buf.Length
    modifies buf
    ensures Wrote(buf[..], old(buf[..]), pos, [MINUS] + Padded(month, 2) + [MINUS] + Padded(day, 2))
  {
    StoreByte(buf, pos, MINUS);
    ghost var b1 := buf[..];
    StorePair(buf, pos + 1, month, MINUS);
    WroteThen(old(buf[..]), b1, buf[..], pos, [MINUS], Padded(month, 2) + [MINUS]);
    ghost var b2 := buf[..];
    LegacyNumbers.Write2(day, buf, pos + 4);
    WroteThen(old(buf[..]), b2, buf[..], pos, [MINUS] + (Padded(month, 2) + [MINUS]), Padded(day, 2));
    assert [MINUS] + (Padded(month, 2) + [MINUS]) + Padded(day, 2) == [MINUS] + Padded(month, 2) + [MINUS] + Padded(day, 2);
  }

  /** `THH:MM:SS` after the date, with the older `write2`. */
  method StoreClock(buf: array<Byte>, pos: int, hour: int, minute: int, second: int)
    requires 0 <= hour < 100 && 0 <= minute < 100 && 0 <= second < 100
    requires 0 <= pos && pos + 9 <= buf.Length
    modifies buf
    ensures Wrote(buf[..], old(buf[..]), pos, [T] + ClockText(hour, minute, second))
  {
    StoreByte(buf, pos, T);
    ghost var b1 := buf[..];
    StorePair(buf, pos + 1, hour, COLON);
    WroteThen(old(buf[..]), b1, buf[..], pos, [T], Padded(hour, 2) + [COLON]);
    ghost var b2 := buf[..];
    StorePair(buf, pos + 4, minute, COLON);
    WroteThen(old(buf[..]), b2, buf[..], pos, [T] + (Padded(hour, 2) + [COLON]), Padded(minute, 2) + [COLON]);
    ghost var b3 := buf[..];
    LegacyNumbers.Write2(second, buf, pos + 7);
    WroteThen(old(buf[..]), b3, buf[..], pos, [T] + (Padded(hour, 2) + [COLON]) + (Padded(minute, 2) + [COLON]), Padded(second, 2));
    assert [T] + (Padded(hour, 2) + [COLON]) + (Padded(minute, 2) + [COLON]) + Padded(second, 2) == [T] + ClockText(hour, minute, second);
  }

  /** The opening quote and the year: `write4` throws above 9999. */
  method StoreYear(buf: array<Byte>, year: int) returns (r: Result<()>)
    requires 0 <= year && IsInt(year) && 5 <= buf.Length
    modifies buf
    ensures r.Err? <==> 9999 < year
    ensures r.Err? ==> r.error.IllegalArgument?
    ensures r.Ok? ==> Wrote(buf[..], old(buf[..]), 0, [QUOTE] + Padded(year, 4))
  {
    StoreByte(buf, 0, QUOTE);
    ghost var b1 := buf[..];
    r := LegacyNumbers.Write4(year, buf, 1);
    if r.Ok? {
      WroteThen(old(buf[..]), b1, buf[..], 0, [QUOTE], Padded(year, 4));
    }
  }

  /** `"YYYY-MM-DD` from the start of `buf`. */
  method StoreDate(buf: array<Byte>, year: int, month: int, day: int) returns (r: Result<()>)
    requires 0 <= year && IsInt(year) && 0 <= month < 100 && 0 <= day < 100 && 11 <= buf.Length
    modifies buf
    ensures r.Err? <==> 9999 < year
    ensures r.Err? ==> r.error.IllegalArgument?
    ensures r.Ok? ==> Wrote(buf[..], old(buf[..]), 0, [QUOTE] + DateText(year, month, day))
  {
    r := StoreYear(buf, year);
    if r.Err? {
      return;
    }
    ghost var b1 := buf[..];
    StoreMonthDay(buf, 5, month, day);
    WroteThen(old(buf[..]), b1, buf[..], 0, [QUOTE] + Padded(year, 4), [MINUS] + Padded(month, 2) + [MINUS] + Padded(day, 2));
    assert [QUOTE] + Padded(year, 4) + ([MINUS] + Padded(month, 2) + [MINUS] + Padded(day, 2)) == [QUOTE] + DateText(year, month, day);
  }

  /** `serialize(DateTime, sw)`: the quote, the date, `T`, the clock and
      the milliseconds from `tmp[0]`, then `writeTimezone`, whose
      `writeBuffer` hands the whole string over. A year above 9999 makes
      `write4` throw, and nothing is handed over. */
  method SerializeDateTime(value: DateTime, tmp: array<Byte>) returns (r: Result<seq<Byte>>)
    requires ValidDateTime(value) && 0 <= value.year && 31 <= tmp.Length
    modifies tmp
    ensures r.Err? <==> 9999 < value.year
    ensures r.Err? ==> r.error.IllegalArgument?
    ensures r.Ok? ==> r.value == DateTimeJson(value)
  {
    var ok := StoreDate(tmp, value.year, value.month, value.day);
    if ok.Err? {
      return Err(ok.error);
    }
    ghost var date := [QUOTE] + DateText(value.year, value.month, value.day);
    ghost var b1 := tmp[..];
    var k := StoreClockAndMillis(tmp, value);
    ghost var rest := [T] + ClockText(value.hour, value.minute, value.second) + MillisText(value.millis);
    WroteThen(old(tmp[..]), b1, tmp[..], 0, date, rest);
    WrotePrefix(tmp[..], old(tmp[..]), 0, date + rest);
    var bytes := WriteTimezone(tmp, 20 + k, value);
    assert date + rest + ZoneText(value.zone) + [QUOTE] == DateTimeJson(value);
    r := Ok(bytes);
  }

  /** `T`, the clock and the milliseconds after the date; the number of
      bytes of the milliseconds is returned. */
  method StoreClockAndMillis(tmp: array<Byte>, value: DateTime) returns (k: int)
    requires ValidDateTime(value) && 24 <= tmp.Length
    modifies tmp
    ensures k == |MillisText(value.millis)|
    ensures Wrote(tmp[..], old(tmp[..]), 11, [T] + ClockText(value.hour, value.minute, value.second) + MillisText(value.millis))
  {
    StoreClock(tmp, 11, value.hour, value.minute, value.second);
    ghost var b1 := tmp[..];
    k := StoreMillis(tmp, 20, value.millis);
    WroteThen(old(tmp[..]), b1, tmp[..], 11, [T] + ClockText(value.hour, value.minute, value.second), MillisText(value.millis));
  }

  /** `serialize(LocalDate, sw)`: the quote, the date and the quote from
      `tmp[0]`, then `writeBuffer(12)`. A year above 9999 makes `write4`
      throw, and nothing is handed over. */
  method SerializeLocalDate(value: LocalDate, tmp: array<Byte>) returns (r: Result<seq<Byte>>)
    requires ValidLocalDate(value) && 0 <= value.year && 12 <= tmp.Length
    modifies tmp
    ensures r.Err? <==> 9999 < value.year
    ensures r.Err? ==> r.error.IllegalArgument?
    ensures r.Ok? ==> r.value == LocalDateJson(value)
  {
    var ok := StoreDate(tmp, value.year, value.month, value.day);
    if ok.Err? {
      return Err(ok.error);
    }
    ghost var b1 := tmp[..];
    StoreByte(tmp, 11, QUOTE);
    WroteThen(old(tmp[..]), b1, tmp[..], 0, [QUOTE] + DateText(value.year, value.month, value.day), [QUOTE]);
    WrotePrefix(tmp[..], old(tmp[..]), 0, LocalDateJson(value));
    r := Ok(tmp[..12]);
  }
}

/** The fixed layout shared by the date converters: a date as `YYYY-MM-DD`
    and a clock time as `HH:MM:SS`, every field zero padded, stored at fixed
    offsets of a byte buffer with `write4` and `write2`. */
module DateLayout {
  import opened Java
  import opened DecimalText
  import NumberConverter

  const T: Byte := 'T' as int
  const DOT: Byte := '.' as int
  const ZULU: Byte := 'Z' as int

  /** `YYYY-MM-DD`. */
  function DateText(year: int, month: int, day: int): (r: seq<Byte>)
    requires 0 <= year <= 9999 && 0 <= month < 100 && 0 <= day < 100
    ensures |r| == 10 && r[4] == MINUS && r[7] == MINUS
    ensures r[..4] == Padded(year, 4) && r[5..7] == Padded(month, 2) && r[8..] == Padded(day, 2)
  {
    Padded(year, 4) + [MINUS] + Padded(month, 2) + [MINUS] + Padded(day, 2)
  }

  /** `HH:MM:SS`. */
  function ClockText(hour: int, minute: int, second: int): (r: seq<Byte>)
    requires 0 <= hour < 100 && 0 <= minute < 100 && 0 <= second < 100
    ensures |r| == 8 && r[2] == COLON && r[5] == COLON
    ensures r[..2] == Padded(hour, 2) && r[3..5] == Padded(minute, 2) && r[6..] == Padded(second, 2)
  {
    Padded(hour, 2) + [COLON] + Padded(minute, 2) + [COLON] + Padded(second, 2)
  }

  /** One byte stored at `pos`. */
  method StoreByte(buf: array<Byte>, pos: int, x: Byte)
    requires 0 <= pos < buf.Length
    modifies buf
    ensures Wrote(buf[..], old(buf[..]), pos, [x])
  {
    buf[pos] := x;
    WroteByte(old(buf[..]), pos, x);
  }

  /** `write2(value, buf, pos)` followed by a separator byte. */
  method StorePair(buf: array<Byte>, pos: int, value: int, sep: Byte)
    requires 0 <= value < 100 && 0 <= pos && pos + 3 <= buf.Length
    modifies buf
    ensures Wrote(buf[..], old(buf[..]), pos, Padded(value, 2) + [sep])
  {
    NumberConverter.Write2(value, buf, pos);
    ghost var b := buf[..];
    StoreByte(buf, pos + 2, sep);
    WroteThen(old(buf[..]), b, buf[..], pos, Padded(value, 2), [sep]);
  }

  /** The date fields as `write4`, `'-'`, `write2`, `'-'`, `write2` store
      them. */
  method StoreDate(buf: array<Byte>, pos: int, year: int, month: int, day: int)
    requires 0 <= year <= 9999 && 0 <= month < 100 && 0 <= day < 100
    requires 0 <= pos && pos + 10 <= buf.Length
    modifies buf
    ensures Wrote(buf[..], old(buf[..]), pos, DateText(year, month, day))
  {
    var ok := NumberConverter.Write4(year, buf, pos);
    ghost var b1 := buf[..];
    StoreByte(buf, pos + 4, MINUS);
    WroteThen(old(buf[..]), b1, buf[..], pos, Padded(year, 4), [MINUS]);
    ghost var b2 := buf[..];
    StorePair(buf, pos + 5, month, MINUS);
    WroteThen(old(buf[..]), b2, buf[..], pos, Padded(year, 4) + [MINUS], Padded(month, 2) + [MINUS]);
    ghost var b3 := buf[..];
    NumberConverter.Write2(day, buf, pos + 8);
    WroteThen(old(buf[..]), b3, buf[..], pos, Padded(year, 4) + [MINUS] + (Padded(month, 2) + [MINUS]), Padded(day, 2));
    assert Padded(year, 4) + [MINUS] + (Padded(month, 2) + [MINUS]) + Padded(day, 2) == DateText(year, month, day);
  }

  /** The clock fields as `write2`, `':'`, `write2`, `':'`, `write2` store
      them. */
  method StoreClock(buf: array<Byte>, pos: int, hour: int, minute: int, second: int)
    requires 0 <= hour < 100 && 0 <= minute < 100 && 0 <= second < 100
    requires 0 <= pos && pos + 8 <= buf.Length
    modifies buf
    ensures Wrote(buf[..], old(buf[..]), pos, ClockText(hour, minute, second))
  {
    StorePair(buf, pos, hour, COLON);
    ghost var b1 := buf[..];
    StorePair(buf, pos + 3, minute, COLON);
    WroteThen(old(buf[..]), b1, buf[..], pos, Padded(hour, 2) + [COLON], Padded(minute, 2) + [COLON]);
    ghost var b2 := buf[..];
    NumberConverter.Write2(second, buf, pos + 6);
    WroteThen(old(buf[..]), b2, buf[..], pos, Padded(hour, 2) + [COLON] + (Padded(minute, 2) + [COLON]), Padded(second, 2));
    assert Padded(hour, 2) + [COLON] + (Padded(minute, 2) + [COLON]) + Padded(second, 2) == ClockText(hour, minute, second);
  }

  /** `"YYYY-MM-DDTHH:MM:SS` from `pos`: the opening quote, the date, `T`
      and the clock, the first twenty bytes every date-time serializer
      stores. */
  method StoreDateTime(buf: array<Byte>, pos: int, year: int, month: int, day: int, hour: int, minute: int, second: int)
    requires 0 <= year <= 9999 && 0 <= month < 100 && 0 <= day < 100
    requires 0 <= hour < 100 && 0 <= minute < 100 && 0 <= second < 100
    requires 0 <= pos && pos + 20 <= buf.Length
    modifies buf
    ensures Wrote(buf[..], old(buf[..]), pos, [QUOTE] + DateText(year, month, day) + [T] + ClockText(hour, minute, second))
  {
    StoreByte(buf, pos, QUOTE);
    ghost var b1 := buf[..];
    StoreDate(buf, pos + 1, year, month, day);
    WroteThen(old(buf[..]), b1, buf[..], pos, [QUOTE], DateText(year, month, day));
    ghost var b2 := buf[..];
    StoreByte(buf, pos + 11, T);
    WroteThen(old(buf[..]), b2, buf[..], pos, [QUOTE] + DateText(year, month, day), [T]);
    ghost var b3 := buf[..];
    StoreClock(buf, pos + 12, hour, minute, second);
    WroteThen(old(buf[..]), b3, buf[..], pos, [QUOTE] + DateText(year, month, day) + [T], ClockText(hour, minute, second));
  }
}

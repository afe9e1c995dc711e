/** The converter for `java.time` values (`JavaTimeConverter`): dates and
    times are written in ISO-8601 at fixed offsets of the writer's buffer,
    and read back from the `tmp` buffer that `readSimpleQuote` fills, by a
    fast path for the common shapes and the library's own parser for the
    rest. */
module JavaTimeConverter {
  import opened Java
  import opened DecimalText
  import opened DateLayout
  import opened JavaTime
  import NumberConverter
  import NumberProperties
  import JsonWriter

  const NEGATIVE_DATES: string := "Negative dates are not supported."

  // ---------------------------------------------------------------------
  // Fractions of a second

  /** The digits `s` without their trailing zeros. */
  function StripZeros(s: seq<Byte>): (r: seq<Byte>)
    ensures |r| <= |s| && r == s[..|r|]
    ensures r != [] ==> r[|r| - 1] != '0' as int
    ensures forall i | |r| <= i < |s| :: s[i] == '0' as int
  {
    if s != [] && s[|s| - 1] == '0' as int then StripZeros(s[..|s| - 1]) else s
  }

  /** The nine digits of the nanoseconds without their trailing zeros. */
  function Fraction(nano: int): seq<Byte>
    requires 0 <= nano < 1_000_000_000
  {
    StripZeros(Padded(nano, 9))
  }

  /** Nothing for a whole second, otherwise a dot and the fraction. */
  function NanoText(nano: int): seq<Byte>
    requires 0 <= nano < 1_000_000_000
  {
    if nano == 0 then [] else [DOT] + Fraction(nano)
  }

  /** How many digits `writeNano` stores before trimming: nine when the
      last group of three is not zero, six when only the last group is,
      three otherwise. */
  function StoredDigits(nano: int): int {
    if nano % 1000 != 0 then 9 else if nano / 1000 % 1000 != 0 then 6 else 3
  }

  /** Splitting three digits off the end of a padded number. */
  lemma PaddedThousands(n: nat, w: nat)
    ensures Padded(n, w + 3) == Padded(n / 1000, w) + Padded(n % 1000, 3)
  {
    var q, r := n / 1000, n % 1000;
    DivModUnique(n, 10, 100 * q + r / 10, r % 10);
    DivModUnique(n / 10, 10, 10 * q + r / 100, r / 10 % 10);
    DivModUnique(n / 10 / 10, 10, q, r / 100);
    Padded3(r);
    assert Padded(n, w + 3) == Padded(n / 10, w + 2) + [DigitByte(n % 10)];
    assert Padded(n / 10, w + 2) == Padded(n / 10 / 10, w + 1) + [DigitByte(n / 10 % 10)];
    assert Padded(n / 10 / 10, w + 1) == Padded(q, w) + [DigitByte(r / 100)];
  }

  /** The nine digits of the nanoseconds as three groups of three. */
  lemma NanoGroups(nano: int)
    requires 0 <= nano < 1_000_000_000
    ensures Padded(nano, 9) == Padded(nano / 1000 / 1000, 3) + Padded(nano / 1000 % 1000, 3) + Padded(nano % 1000, 3)
  {
    PaddedThousands(nano, 6);
    PaddedThousands(nano / 1000, 3);
    assert nano / 1000 / 1000 < 1000;
  }

  /** Zero digits are all `'0'`. */
  lemma {:induction false} PaddedZero(w: nat)
    ensures forall i | 0 <= i < w :: Padded(0, w)[i] == '0' as int
  {
    if w > 0 {
      PaddedZero(w - 1);
    }
  }

  /** Trailing zeros do not survive stripping. */
  lemma {:induction false} StripZerosAppendZeros(s: seq<Byte>, z: seq<Byte>)
    requires forall i | 0 <= i < |z| :: z[i] == '0' as int
    ensures StripZeros(s + z) == StripZeros(s)
    decreases |z|
  {
    if z == [] {
      assert s + z == s;
    } else {
      assert (s + z)[..|s + z| - 1] == s + z[..|z| - 1];
      StripZerosAppendZeros(s, z[..|z| - 1]);
    }
  }

  /** Stripping digits that end in a non-zero group of three removes at
      most two zeros. */
  lemma StripGroup(e: seq<Byte>, g: int)
    requires 0 < g < 1000
    ensures var d := e + Padded(g, 3);
      StripZeros(d) == if g % 10 != 0 then d else if g / 10 % 10 != 0 then d[..|d| - 1] else d[..|d| - 2]
  {
    Padded3(g);
    var d := e + Padded(g, 3);
    var d1 := d[..|d| - 1];
    if g % 10 == 0 {
      assert StripZeros(d) == StripZeros(d1);
      assert d1 == e + [DigitByte(g / 100), DigitByte(g / 10 % 10)];
      if g / 10 % 10 == 0 {
        assert g / 100 != 0;
        var d2 := d1[..|d1| - 1];
        assert StripZeros(d1) == StripZeros(d2);
        assert d2 == e + [DigitByte(g / 100)];
        assert d2 == d[..|d| - 2];
      }
    }
  }

  /** The last two digits of a run that ends in a group of three. */
  lemma LastDigits(d: seq<Byte>, e: seq<Byte>, g: int)
    requires 0 <= g < 1000 && d == e + Padded(g, 3)
    ensures d[|d| - 1] == DigitByte(g % 10) && d[|d| - 2] == DigitByte(g / 10 % 10)
  {
    Padded3(g);
  }

  /** The digits stored, their last group and what stripping keeps. */
  lemma FractionOfGroups(nano: int)
    requires 0 < nano < 1_000_000_000
    ensures var m := StoredDigits(nano);
      var g := if m == 9 then nano % 1000 else if m == 6 then nano / 1000 % 1000 else nano / 1000 / 1000;
      var d := Padded(nano, 9)[..m];
      && 0 < g < 1000
      && d == d[..m - 3] + Padded(g, 3)
      && Fraction(nano) == (if g % 10 != 0 then d else if g / 10 % 10 != 0 then d[..m - 1] else d[..m - 2])
  {
    var m := StoredDigits(nano);
    var a, b, c := nano / 1000 / 1000, nano / 1000 % 1000, nano % 1000;
    NanoGroups(nano);
    var p := Padded(nano, 9);
    assert p[..9] == p;
    PaddedZero(3);
    if m == 6 {
      assert c == 0;
      assert p == (Padded(a, 3) + Padded(b, 3)) + Padded(0, 3);
      StripZerosAppendZeros(Padded(a, 3) + Padded(b, 3), Padded(0, 3));
      assert p[..6] == Padded(a, 3) + Padded(b, 3);
    } else if m == 3 {
      assert b == 0 && c == 0;
      assert a != 0 by {
        assert nano == nano / 1000 * 1000 + c;
        assert nano / 1000 == a * 1000 + b;
      }
      assert p == Padded(a, 3) + (Padded(0, 3) + Padded(0, 3));
      forall i | 0 <= i < 6 ensures (Padded(0, 3) + Padded(0, 3))[i] == '0' as int {
      }
      StripZerosAppendZeros(Padded(a, 3), Padded(0, 3) + Padded(0, 3));
      assert p[..3] == Padded(a, 3);
      assert p[..3] == [] + Padded(a, 3);
    }
    var d := p[..m];
    var g := if m == 9 then c else if m == 6 then b else a;
    StripGroup(d[..m - 3], g);
    assert d == d[..m - 3] + Padded(g, 3);
  }

  /** `writeNano(buf, offset, nano)`: a dot and the digit groups, then at
      most two trailing zeros dropped; returns the length of what is kept,
      the dot included. */
  method WriteNano(buf: array<Byte>, offset: int, nano: int) returns (end: int)
    requires 0 < nano < 1_000_000_000 && 0 <= offset && offset + 1 + StoredDigits(nano) <= buf.Length
    modifies buf
    ensures 2 <= end <= 1 + StoredDigits(nano)
    ensures end == |NanoText(nano)|
    ensures buf[..offset + end] == old(buf[..offset]) + NanoText(nano)
    ensures buf[offset + 1 + StoredDigits(nano)..] == old(buf[offset + 1 + StoredDigits(nano)..])
  {
    end := StoreNanoDigits(buf, offset, nano);
    WroteSuffix(buf[..], old(buf[..]), offset, [DOT] + Padded(nano, 9)[..StoredDigits(nano)]);
    TrimmedDigits(buf[..], old(buf[..]), offset, nano);
    if buf[end + offset - 1] == '0' as int {
      end := end - 1;
    }
    if buf[end + offset - 1] == '0' as int {
      end := end - 1;
    }
  }

  /** What the two trimming steps of `writeNano` keep of the stored digits:
      up to the last byte that is not `'0'`, which is the fraction. */
  lemma TrimmedDigits(now: seq<Byte>, before: seq<Byte>, offset: int, nano: int)
    requires 0 < nano < 1_000_000_000 && 0 <= offset && offset + 1 + StoredDigits(nano) <= |before|
    requires Wrote(now, before, offset, [DOT] + Padded(nano, 9)[..StoredDigits(nano)])
    ensures |now| == |before|
    ensures var m := StoredDigits(nano);
      var k := if now[offset + m] != '0' as int then 0 else if now[offset + m - 1] != '0' as int then 1 else 2;
      && now[offset + m - k] != '0' as int
      && now[..offset + 1 + m - k] == before[..offset] + NanoText(nano)
      && |NanoText(nano)| == 1 + m - k
  {
    var m := StoredDigits(nano);
    var d := Padded(nano, 9)[..m];
    WrotePrefix(now, before, offset, [DOT] + d);
    var pre := before[..offset] + [DOT];
    var full := now[..offset + 1 + m];
    assert full == pre + d;
    var k := TrimmedFraction(nano);
    assert now[offset + m] == full[offset + m] == d[m - 1];
    assert now[offset + m - 1] == full[offset + m - 1] == d[m - 2];
    assert now[offset + m - k] == full[offset + 1 + (m - 1 - k)] == d[m - 1 - k];
    TrimPrefix(full, pre, d, k);
    assert now[..offset + 1 + m - k] == full[..offset + 1 + m - k];
  }

  /** How many of the stored digits the trimming drops: none when the last
      one is not `'0'`, one when only the last one is, two otherwise; what
      is left is the fraction, ending in a digit other than `'0'`. */
  lemma TrimmedFraction(nano: int) returns (k: int)
    requires 0 < nano < 1_000_000_000
    ensures var m := StoredDigits(nano);
      var d := Padded(nano, 9)[..m];
      && k == (if d[m - 1] != '0' as int then 0 else if d[m - 2] != '0' as int then 1 else 2)
      && d[..m - k] == Fraction(nano) && d[m - 1 - k] != '0' as int
  {
    var m := StoredDigits(nano);
    var d := Padded(nano, 9)[..m];
    var g := if m == 9 then nano % 1000 else if m == 6 then nano / 1000 % 1000 else nano / 1000 / 1000;
    FractionOfGroups(nano);
    LastDigits(d, d[..m - 3], g);
    k := if d[m - 1] != '0' as int then 0 else if d[m - 2] != '0' as int then 1 else 2;
    if k == 2 {
      assert d[..m - 3] + Padded(g, 3) == d;
      Padded3(g);
      assert d[m - 3] == DigitByte(g / 100);
    }
  }

  /** Dropping the last `k` bytes of a concatenation drops them from its
      second part. */
  lemma TrimPrefix(full: seq<Byte>, pre: seq<Byte>, d: seq<Byte>, k: int)
    requires full == pre + d && 0 <= k <= |d|
    ensures full[..|pre| + |d| - k] == pre + d[..|d| - k]
  {
  }

  /** The stores of `writeNano` before trimming: the dot and nine, six or
      three digits; returns their count. */
  method StoreNanoDigits(buf: array<Byte>, offset: int, nano: int) returns (end: int)
    requires 0 < nano < 1_000_000_000 && 0 <= offset && offset + 1 + StoredDigits(nano) <= buf.Length
    modifies buf
    ensures end == 1 + StoredDigits(nano)
    ensures Wrote(buf[..], old(buf[..]), offset, [DOT] + Padded(nano, 9)[..StoredDigits(nano)])
  {
    ghost var p := Padded(nano, 9);
    NanoGroups(nano);
    StoreByte(buf, offset, DOT);
    ghost var b1 := buf[..];
    var div := nano / 1000;
    var div2 := div / 1000;
    var rem1 := nano - div * 1000;
    assert rem1 == nano % 1000 && div - div2 * 1000 == div % 1000;
    if rem1 != 0 {
      StoreGroups3(buf, offset + 1, div2, div - div2 * 1000, rem1);
      assert p[..9] == p;
      end := 10;
    } else {
      var rem2 := div - div2 * 1000;
      if rem2 != 0 {
        StoreGroups2(buf, offset + 1, div2, rem2);
        assert p[..6] == Padded(div2, 3) + Padded(rem2, 3);
        end := 7;
      } else {
        NumberConverter.Write3(div2, buf, offset + 1);
        assert p[..3] == Padded(div2, 3);
        end := 4;
      }
    }
    WroteThen(old(buf[..]), b1, buf[..], offset, [DOT], p[..end - 1]);
  }

  /** Three `write3` calls side by side. */
  method StoreGroups3(buf: array<Byte>, pos: int, a: int, b: int, c: int)
    requires 0 <= a < 1000 && 0 <= b < 1000 && 0 <= c < 1000 && 0 <= pos && pos + 9 <= buf.Length
    modifies buf
    ensures Wrote(buf[..], old(buf[..]), pos, Padded(a, 3) + Padded(b, 3) + Padded(c, 3))
  {
    StoreGroups2(buf, pos, a, b);
    ghost var b2 := buf[..];
    NumberConverter.Write3(c, buf, pos + 6);
    WroteThen(old(buf[..]), b2, buf[..], pos, Padded(a, 3) + Padded(b, 3), Padded(c, 3));
  }

  /** Two `write3` calls side by side. */
  method StoreGroups2(buf: array<Byte>, pos: int, a: int, b: int)
    requires 0 <= a < 1000 && 0 <= b < 1000 && 0 <= pos && pos + 6 <= buf.Length
    modifies buf
    ensures Wrote(buf[..], old(buf[..]), pos, Padded(a, 3) + Padded(b, 3))
  {
    NumberConverter.Write3(a, buf, pos);
    ghost var b1 := buf[..];
    NumberConverter.Write3(b, buf, pos + 3);
    WroteThen(old(buf[..]), b1, buf[..], pos, Padded(a, 3), Padded(b, 3));
  }

  // ---------------------------------------------------------------------
  // The text of each value

  /** `HH:MM:SS` and the fraction, if any. */
  function TimeText(t: LocalTime): (r: seq<Byte>)
    requires ValidTime(t)
    ensures |r| == 8 + |NanoText(t.nano)|
    ensures r[..8] == ClockText(t.hour, t.minute, t.second) && r[8..] == NanoText(t.nano)
  {
    ClockText(t.hour, t.minute, t.second) + NanoText(t.nano)
  }

  /** `YYYY-MM-DDTHH:MM:SS` and the fraction, if any. */
  function DateTimeText(v: LocalDateTime): (r: seq<Byte>)
    requires ValidDateTime(v) && 0 <= v.date.year <= 9999
    ensures |r| == 11 + |TimeText(v.time)|
    ensures r[..10] == DateText(v.date.year, v.date.month, v.date.day) && r[10] == T && r[11..] == TimeText(v.time)
  {
    DateText(v.date.year, v.date.month, v.date.day) + [T] + TimeText(v.time)
  }

  /** The JSON string of a date: the fixed layout up to year 9999, the
      unpadded decimal fields above. */
  function LocalDateJson(d: LocalDate): seq<Byte>
    requires ValidDate(d) && 0 <= d.year
  {
    if d.year <= 9999 then [QUOTE] + DateText(d.year, d.month, d.day) + [QUOTE]
    else [QUOTE] + Decimal(d.year) + [MINUS] + Decimal(d.month) + [MINUS] + Decimal(d.day) + [QUOTE]
  }

  function LocalTimeJson(t: LocalTime): seq<Byte>
    requires ValidTime(t)
  {
    [QUOTE] + TimeText(t) + [QUOTE]
  }

  function OffsetTimeJson(v: OffsetTime): seq<Byte>
    requires ValidTime(v.time) && ValidOffset(v.offset)
  {
    [QUOTE] + TimeText(v.time) + ZoneId(v.offset) + [QUOTE]
  }

  function LocalDateTimeJson(v: LocalDateTime): seq<Byte>
    requires ValidDateTime(v) && 0 <= v.date.year <= 9999
  {
    [QUOTE] + DateTimeText(v) + [QUOTE]
  }

  function OffsetDateTimeJson(v: OffsetDateTime): seq<Byte>
    requires ValidDateTime(v.dateTime) && 0 <= v.dateTime.date.year <= 9999 && ValidOffset(v.offset)
  {
    [QUOTE] + DateTimeText(v.dateTime) + ZoneId(v.offset) + [QUOTE]
  }

  /** The fraction is at most a dot and nine digits. */
  lemma NanoTextLength(nano: int)
    requires 0 <= nano < 1_000_000_000
    ensures |NanoText(nano)| <= 10
    ensures nano != 0 ==> 2 <= |NanoText(nano)| <= 1 + StoredDigits(nano)
  {
    if nano != 0 {
      FractionOfGroups(nano);
    }
  }

  // ---------------------------------------------------------------------
  // Storing into the writer's buffer

  /** How far from its start `StoreTime` stores: the quote and the clock,
      and for a fraction the dot and every stored digit, trailing zeros
      included. */
  function TimeRoom(t: LocalTime): int {
    if t.nano == 0 then 9 else 10 + StoredDigits(t.nano)
  }

  /** The opening quote, the clock and the fraction, as the time
      serializers store them from `pos`; returns how many bytes are kept. */
  method StoreTime(buf: array<Byte>, pos: int, t: LocalTime) returns (end: int)
    requires ValidTime(t) && 0 <= pos && pos + TimeRoom(t) <= buf.Length
    modifies buf
    ensures end == 1 + |TimeText(t)| && end <= TimeRoom(t)
    ensures buf[..pos + end] == old(buf[..pos]) + [QUOTE] + TimeText(t)
  {
    ghost var clock := ClockText(t.hour, t.minute, t.second);
    StoreByte(buf, pos, QUOTE);
    ghost var b1 := buf[..];
    StoreClock(buf, pos + 1, t.hour, t.minute, t.second);
    WroteThen(old(buf[..]), b1, buf[..], pos, [QUOTE], clock);
    WrotePrefix(buf[..], old(buf[..]), pos, [QUOTE] + clock);
    var e := StoreFraction(buf, pos + 9, t.nano);
    end := 9 + e;
    Regrouped(old(buf[..pos]), [QUOTE] + clock, NanoText(t.nano));
  }

  /** The fraction of `nano` stored from `at` by `writeNano`, or nothing
      for a whole second; returns how many bytes are kept. */
  method StoreFraction(buf: array<Byte>, at: int, nano: int) returns (e: int)
    requires 0 <= nano < 1_000_000_000 && 0 <= at && at + (if nano == 0 then 0 else 1 + StoredDigits(nano)) <= buf.Length
    modifies buf
    ensures e == |NanoText(nano)| && e <= (if nano == 0 then 0 else 1 + StoredDigits(nano))
    ensures buf[..at + e] == old(buf[..at]) + NanoText(nano)
  {
    NanoTextLength(nano);
    if nano != 0 {
      e := WriteNano(buf, at, nano);
    } else {
      e := 0;
    }
  }

  /** A prefix, then a head, then a tail. */
  lemma Regrouped(pre: seq<Byte>, head: seq<Byte>, tail: seq<Byte>)
    ensures pre + head + tail == pre + (head + tail)
  {
  }

  /** How far from its start `StoreDateTimeNano` stores. */
  function DateTimeRoom(v: LocalDateTime): int {
    11 + TimeRoom(v.time)
  }

  /** The opening quote, the date, `T`, the clock and the fraction, as the
      date-time serializers store them from `pos`; returns how many bytes
      are kept. */
  method StoreDateTimeNano(buf: array<Byte>, pos: int, v: LocalDateTime) returns (end: int)
    requires ValidDateTime(v) && 0 <= v.date.year <= 9999
    requires 0 <= pos && pos + DateTimeRoom(v) <= buf.Length
    modifies buf
    ensures end == 1 + |DateTimeText(v)| && end <= DateTimeRoom(v)
    ensures buf[..pos + end] == old(buf[..pos]) + [QUOTE] + DateTimeText(v)
  {
    var date, time := v.date, v.time;
    ghost var head := [QUOTE] + DateText(date.year, date.month, date.day) + [T] + ClockText(time.hour, time.minute, time.second);
    StoreDateTime(buf, pos, date.year, date.month, date.day, time.hour, time.minute, time.second);
    WrotePrefix(buf[..], old(buf[..]), pos, head);
    ghost var pre := old(buf[..pos]);
    var e := StoreFraction(buf, pos + 20, time.nano);
    end := 20 + e;
    DateTimeSplit(v, pre);
  }

  /** The quoted text of a date-time is its fixed head, then the fraction. */
  lemma DateTimeSplit(v: LocalDateTime, pre: seq<Byte>)
    requires ValidDateTime(v) && 0 <= v.date.year <= 9999
    ensures pre + ([QUOTE] + DateText(v.date.year, v.date.month, v.date.day) + [T]
                   + ClockText(v.time.hour, v.time.minute, v.time.second)) + NanoText(v.time.nano)
            == pre + [QUOTE] + DateTimeText(v)
  {
    var date, time := v.date, v.time;
    var clock := ClockText(time.hour, time.minute, time.second);
    assert TimeText(time) == clock + NanoText(time.nano);
    assert DateTimeText(v) == DateText(date.year, date.month, date.day) + [T] + (clock + NanoText(time.nano));
  }

  // ---------------------------------------------------------------------
  // Serializers

  /** `writeTimezone(position, zone, sw)`: the `position` bytes stored
      after the writer's position become output, then the offset's id and
      the closing quote follow. Its callers have reserved at least 22 bytes,
      so the quote always fits. */
  method WriteTimezone(position: int, zone: ZoneOffset, sw: JsonWriter.JsonWriter)
    requires sw.Valid() && ValidOffset(zone)
    requires 0 <= sw.position + position <= sw.result.Length && 2 <= sw.result.Length
    modifies sw, sw.result
    ensures sw.Valid() && (sw.result == old(sw.result) || fresh(sw.result))
    ensures sw.Contents() == old(sw.result[..sw.position + position]) + ZoneId(zone) + [QUOTE]
  {
    sw.Advance(position);
    sw.WriteAscii(ZoneId(zone));
    var r := sw.WriteByte(QUOTE);
    assert r.Ok?;
  }

  /** `writeByte('"')`, `writeAscii(text)`, `writeByte('"')`: a text in
      quotes, used for the years the fixed layout cannot hold. */
  method WriteQuoted(text: seq<Byte>, sw: JsonWriter.JsonWriter) returns (r: Result<()>)
    requires sw.Valid()
    modifies sw, sw.result
    ensures sw.Valid() && (sw.result == old(sw.result) || fresh(sw.result))
    ensures r.Ok? ==> sw.Contents() == old(sw.Contents()) + [QUOTE] + text + [QUOTE]
    ensures r.Err? ==> r.error == IndexOutOfBounds
    ensures old(sw.Roomy()) ==> r.Ok?
  {
    r := sw.WriteByte(QUOTE);
    if r.Err? {
      return;
    }
    sw.WriteAscii(text);
    r := sw.WriteByte(QUOTE);
  }

  /** `serialize(LocalDate, sw)`: a negative year is refused; a year above
      9999 is written field by field with `NumberConverter.serialize`;
      otherwise the twelve bytes of the fixed layout. */
  method SerializeLocalDate(value: LocalDate, sw: JsonWriter.JsonWriter) returns (r: Result<()>)
    requires sw.Valid() && ValidDate(value)
    modifies sw, sw.result
    ensures sw.Valid() && (sw.result == old(sw.result) || fresh(sw.result))
    ensures value.year < 0 ==> r == Err(Serialization(NEGATIVE_DATES)) && sw.Contents() == old(sw.Contents())
    ensures 0 <= value.year ==> (r.Ok? <==> value.year <= 9999 || JsonWriter.ByteFits(old(sw.result.Length), old(sw.position)))
    ensures r.Ok? ==> 0 <= value.year && sw.Contents() == old(sw.Contents()) + LocalDateJson(value)
    ensures 0 <= value.year && r.Err? ==> r.error == IndexOutOfBounds && sw.Contents() == old(sw.Contents())
  {
    if value.year < 0 {
      return Err(Serialization(NEGATIVE_DATES));
    } else if value.year > 9999 {
      r := WriteLongDate(value, sw);
      return;
    }
    sw.EnsureCapacity(12);
    var buf := sw.result;
    var pos := sw.Size();
    StoreShortDate(buf, pos, value);
    sw.Advance(12);
    r := Ok(());
  }

  /** The twelve bytes of a date in the fixed layout, stored from `pos`. */
  method StoreShortDate(buf: array<Byte>, pos: int, value: LocalDate)
    requires ValidDate(value) && 0 <= value.year <= 9999 && 0 <= pos && pos + 12 <= buf.Length
    modifies buf
    ensures buf[..pos + 12] == old(buf[..pos]) + LocalDateJson(value)
  {
    ghost var b := buf[..];
    StoreByte(buf, pos, QUOTE);
    ghost var b1 := buf[..];
    StoreDate(buf, pos + 1, value.year, value.month, value.day);
    WroteThen(b, b1, buf[..], pos, [QUOTE], DateText(value.year, value.month, value.day));
    ghost var b2 := buf[..];
    StoreByte(buf, pos + 11, QUOTE);
    WroteThen(b, b2, buf[..], pos, [QUOTE] + DateText(value.year, value.month, value.day), [QUOTE]);
    WrotePrefix(buf[..], b, pos, LocalDateJson(value));
  }

  /** The quote, the year, `-`, the month, `-`, the day and the quote,
      each number with `NumberConverter.serialize`. */
  method WriteLongDate(value: LocalDate, sw: JsonWriter.JsonWriter) returns (r: Result<()>)
    requires sw.Valid() && ValidDate(value) && 9999 < value.year
    modifies sw, sw.result
    ensures sw.Valid() && (sw.result == old(sw.result) || fresh(sw.result))
    ensures r.Ok? <==> JsonWriter.ByteFits(old(sw.result.Length), old(sw.position))
    ensures r.Ok? ==> sw.Contents() == old(sw.Contents()) + LocalDateJson(value)
    ensures r.Err? ==> r.error == IndexOutOfBounds && sw.Contents() == old(sw.Contents())
  {
    r := sw.WriteByte(QUOTE);
    if r.Err? {
      return;
    }
    ghost var c0 := sw.Contents();
    WriteNumberThen(value.year, MINUS, sw);
    ghost var c1 := sw.Contents();
    WriteMonthDay(value.month, value.day, sw);
    LongDateParts(old(sw.Contents()), c0, c1, sw.Contents(), value);
  }

  /** The three writes of a long date put together. */
  lemma LongDateParts(c: seq<Byte>, c0: seq<Byte>, c1: seq<Byte>, c2: seq<Byte>, value: LocalDate)
    requires ValidDate(value) && 9999 < value.year
    requires c0 == c + [QUOTE] && c1 == c0 + Decimal(value.year) + [MINUS]
    requires c2 == c1 + Decimal(value.month) + [MINUS] + Decimal(value.day) + [QUOTE]
    ensures c2 == c + LocalDateJson(value)
  {
  }

  /** The month, `-`, the day and the closing quote. */
  method WriteMonthDay(month: int, day: int, sw: JsonWriter.JsonWriter)
    requires sw.Valid() && 1 <= month <= 12 && 1 <= day <= 31
    modifies sw, sw.result
    ensures sw.Valid() && (sw.result == old(sw.result) || fresh(sw.result))
    ensures sw.Contents() == old(sw.Contents()) + Decimal(month) + [MINUS] + Decimal(day) + [QUOTE]
  {
    WriteNumberThen(month, MINUS, sw);
    WriteNumberThen(day, QUOTE, sw);
  }

  /** `NumberConverter.serialize(value, sw)` and `writeByte(after)`: the
      number leaves at least eleven bytes, so the byte always fits. */
  method WriteNumberThen(value: int, after: Byte, sw: JsonWriter.JsonWriter)
    requires sw.Valid() && IsInt(value)
    modifies sw, sw.result
    ensures sw.Valid() && (sw.result == old(sw.result) || fresh(sw.result))
    ensures sw.Contents() == old(sw.Contents()) + Decimal(value) + [after]
  {
    NumberConverter.SerializeInt(value, sw);
    var r := sw.WriteByte(after);
    assert r.Ok?;
  }

  /** Whether the stores of `serialize(LocalTime, sw)` stay inside the
      buffer after `ensureCapacity(reserve)`. */
  predicate LocalTimeFits(length: int, position: int, t: LocalTime, reserve: int)
    requires ValidTime(t)
  {
    var capacity := NumberConverter.CapacityAfter(length, position, reserve);
    position + TimeRoom(t) <= capacity && position + |LocalTimeJson(t)| <= capacity
  }

  /** `serialize(LocalTime, sw)` as written, reserving 18 bytes: a time
      with a fraction can need 20, and the stores then run past the end of
      the buffer. */
  method SerializeLocalTime(value: LocalTime, sw: JsonWriter.JsonWriter) returns (r: Result<()>)
    requires sw.Valid() && ValidTime(value)
    modifies sw, sw.result
    ensures sw.Valid() && (sw.result == old(sw.result) || fresh(sw.result))
    ensures r.Ok? <==> LocalTimeFits(old(sw.result.Length), old(sw.position), value, 18)
    ensures r.Ok? ==> sw.Contents() == old(sw.Contents()) + LocalTimeJson(value)
    ensures r.Err? ==> r.error == IndexOutOfBounds && sw.Contents() == old(sw.Contents())
  {
    r := SerializeLocalTimeWith(value, sw, 18);
  }

  /** `serialize(LocalTime, sw)` reserving the 20 bytes the longest time
      takes: it always succeeds. */
  method SerializeLocalTimeReserved(value: LocalTime, sw: JsonWriter.JsonWriter)
    requires sw.Valid() && ValidTime(value)
    modifies sw, sw.result
    ensures sw.Valid() && (sw.result == old(sw.result) || fresh(sw.result))
    ensures sw.Contents() == old(sw.Contents()) + LocalTimeJson(value)
  {
    ReservedTimeFits(sw.result.Length, sw.position, value);
    var r := SerializeLocalTimeWith(value, sw, 20);
    assert r.Ok?;
  }

  /** Reserving twenty bytes leaves room for every time. */
  lemma ReservedTimeFits(length: int, position: int, t: LocalTime)
    requires ValidTime(t) && 0 <= position <= length
    ensures LocalTimeFits(length, position, t, 20)
  {
    NanoTextLength(t.nano);
  }

  /** A time with nine fraction digits takes 20 bytes: with 18 reserved, a
      writer of 20 bytes at position 1 keeps its buffer and cannot hold it;
      with 20 reserved it grows first. */
  lemma LocalTimeReserveTooSmall()
    ensures var t := LocalTime(12, 13, 14, 123_456_789);
      && ValidTime(t) && |LocalTimeJson(t)| == 20
      && !LocalTimeFits(20, 1, t, 18) && LocalTimeFits(20, 1, t, 20)
  {
    FractionOfGroups(123_456_789);
  }

  /** The body of `serialize(LocalTime, sw)` after `ensureCapacity(reserve)`:
      the stores fail with an index out of bounds where the buffer ends
      first. */
  method SerializeLocalTimeWith(value: LocalTime, sw: JsonWriter.JsonWriter, reserve: nat) returns (r: Result<()>)
    requires sw.Valid() && ValidTime(value)
    modifies sw, sw.result
    ensures sw.Valid() && (sw.result == old(sw.result) || fresh(sw.result))
    ensures r.Ok? <==> LocalTimeFits(old(sw.result.Length), old(sw.position), value, reserve)
    ensures r.Ok? ==> sw.Contents() == old(sw.Contents()) + LocalTimeJson(value)
    ensures r.Err? ==> r.error == IndexOutOfBounds && sw.Contents() == old(sw.Contents())
  {
    ghost var capacity := NumberConverter.CapacityAfter(sw.result.Length, sw.position, reserve);
    sw.EnsureCapacity(reserve);
    assert sw.result.Length == capacity;
    var buf := sw.result;
    var pos := sw.Size();
    if pos + TimeRoom(value) > buf.Length || pos + |LocalTimeJson(value)| > buf.Length {
      return Err(IndexOutOfBounds);
    }
    ghost var before := sw.Contents();
    assert buf[..pos] == before;
    var end := StoreLocalTime(buf, pos, value);
    sw.Advance(end);
    r := Ok(());
  }

  /** The quoted time stored from `pos`; returns its length. */
  method StoreLocalTime(buf: array<Byte>, pos: int, t: LocalTime) returns (end: int)
    requires ValidTime(t) && 0 <= pos && pos + TimeRoom(t) <= buf.Length && pos + |LocalTimeJson(t)| <= buf.Length
    modifies buf
    ensures end == |LocalTimeJson(t)|
    ensures buf[..pos + end] == old(buf[..pos]) + LocalTimeJson(t)
  {
    ghost var pre := old(buf[..pos]);
    var e := StoreTime(buf, pos, t);
    ghost var b1 := buf[..];
    StoreByte(buf, pos + e, QUOTE);
    WrotePrefix(buf[..], b1, pos + e, [QUOTE]);
    end := e + 1;
    Quoted(pre, TimeText(t));
  }

  /** The quoted text after what was written before. */
  lemma Quoted(text: seq<Byte>, body: seq<Byte>)
    ensures text + [QUOTE] + body + [QUOTE] == text + ([QUOTE] + body + [QUOTE])
  {
  }

  /** `serialize(OffsetTime, sw)`: the time after `ensureCapacity(22)`, then
      the offset. */
  method SerializeOffsetTime(value: OffsetTime, sw: JsonWriter.JsonWriter)
    requires sw.Valid() && ValidTime(value.time) && ValidOffset(value.offset)
    modifies sw, sw.result
    ensures sw.Valid() && (sw.result == old(sw.result) || fresh(sw.result))
    ensures sw.Contents() == old(sw.Contents()) + OffsetTimeJson(value)
  {
    ghost var text := sw.Contents();
    var end := StoreTimeAhead(value.time, sw, 22);
    ghost var stored := sw.result[..sw.position + end];
    WriteTimezone(end, value.offset, sw);
    Zoned(text, TimeText(value.time), ZoneId(value.offset));
  }

  /** The quoted text and zone after what was written before. */
  lemma Zoned(text: seq<Byte>, local: seq<Byte>, zone: seq<Byte>)
    ensures text + [QUOTE] + local + zone + [QUOTE] == text + ([QUOTE] + local + zone + [QUOTE])
  {
  }

  /** `ensureCapacity(reserve)` and the stores of the time after the
      writer's position, which is not moved; returns how many bytes are
      kept. */
  method StoreTimeAhead(t: LocalTime, sw: JsonWriter.JsonWriter, reserve: nat) returns (end: int)
    requires sw.Valid() && ValidTime(t) && 20 <= reserve
    modifies sw, sw.result
    ensures sw.Valid() && (sw.result == old(sw.result) || fresh(sw.result))
    ensures sw.position == old(sw.position) && reserve <= sw.result.Length
    ensures end == 1 + |TimeText(t)| && sw.position + end <= sw.result.Length
    ensures sw.result[..sw.position + end] == old(sw.Contents()) + [QUOTE] + TimeText(t)
  {
    sw.EnsureCapacity(reserve);
    var buf := sw.result;
    var pos := sw.Size();
    NanoTextLength(t.nano);
    end := StoreTime(buf, pos, t);
  }

  /** `ensureCapacity(32)` and the stores of the date-time after the
      writer's position, which is not moved; returns how many bytes are
      kept. */
  method StoreDateTimeAhead(v: LocalDateTime, sw: JsonWriter.JsonWriter) returns (end: int)
    requires sw.Valid() && ValidDateTime(v) && 0 <= v.date.year <= 9999
    modifies sw, sw.result
    ensures sw.Valid() && (sw.result == old(sw.result) || fresh(sw.result))
    ensures sw.position == old(sw.position) && 32 <= sw.result.Length
    ensures end == 1 + |DateTimeText(v)| && sw.position + end < sw.result.Length
    ensures sw.result[..sw.position + end] == old(sw.Contents()) + [QUOTE] + DateTimeText(v)
  {
    sw.EnsureCapacity(32);
    var buf := sw.result;
    var pos := sw.Size();
    NanoTextLength(v.time.nano);
    end := StoreDateTimeNano(buf, pos, v);
  }

  /** `serialize(LocalDateTime, sw)`: a negative year is refused, a year
      above 9999 is written as its `toString()` form `text`, otherwise the
      fixed layout after `ensureCapacity(32)`. */
  method SerializeLocalDateTime(value: LocalDateTime, text: seq<Byte>, sw: JsonWriter.JsonWriter) returns (r: Result<()>)
    requires sw.Valid() && ValidDateTime(value)
    modifies sw, sw.result
    ensures sw.Valid() && (sw.result == old(sw.result) || fresh(sw.result))
    ensures value.date.year < 0 ==> r == Err(Serialization(NEGATIVE_DATES)) && sw.Contents() == old(sw.Contents())
    ensures 0 <= value.date.year <= 9999 ==> r.Ok? && sw.Contents() == old(sw.Contents()) + LocalDateTimeJson(value)
    ensures 9999 < value.date.year && r.Ok? ==> sw.Contents() == old(sw.Contents()) + [QUOTE] + text + [QUOTE]
    ensures 9999 < value.date.year ==> (old(sw.Roomy()) ==> r.Ok?) && (r.Err? ==> r.error == IndexOutOfBounds)
  {
    if value.date.year < 0 {
      return Err(Serialization(NEGATIVE_DATES));
    } else if value.date.year > 9999 {
      r := WriteQuoted(text, sw);
      return;
    }
    ghost var text0 := sw.Contents();
    var end := StoreDateTimeAhead(value, sw);
    CloseQuote(end, sw);
    Quoted(text0, DateTimeText(value));
    r := Ok(());
  }

  /** The closing quote stored after the `end` bytes kept ahead of the
      writer's position, which then moves past them. */
  method CloseQuote(end: int, sw: JsonWriter.JsonWriter)
    requires sw.Valid() && 0 <= end && sw.position + end < sw.result.Length
    modifies sw, sw.result
    ensures sw.Valid() && sw.result == old(sw.result)
    ensures sw.Contents() == old(sw.result[..sw.position + end]) + [QUOTE]
  {
    var buf := sw.result;
    var pos := sw.Size();
    ghost var b1 := buf[..];
    StoreByte(buf, pos + end, QUOTE);
    WrotePrefix(buf[..], b1, pos + end, [QUOTE]);
    sw.Advance(end + 1);
  }

  /** `serialize(OffsetDateTime, sw)`: as for `LocalDateTime`, with the
      offset instead of the closing quote. */
  method SerializeOffsetDateTime(value: OffsetDateTime, text: seq<Byte>, sw: JsonWriter.JsonWriter) returns (r: Result<()>)
    requires sw.Valid() && ValidDateTime(value.dateTime) && ValidOffset(value.offset)
    modifies sw, sw.result
    ensures sw.Valid() && (sw.result == old(sw.result) || fresh(sw.result))
    ensures value.dateTime.date.year < 0 ==> r == Err(Serialization(NEGATIVE_DATES)) && sw.Contents() == old(sw.Contents())
    ensures 0 <= value.dateTime.date.year <= 9999 ==> r.Ok? && sw.Contents() == old(sw.Contents()) + OffsetDateTimeJson(value)
    ensures 9999 < value.dateTime.date.year && r.Ok? ==> sw.Contents() == old(sw.Contents()) + [QUOTE] + text + [QUOTE]
    ensures 9999 < value.dateTime.date.year ==> (old(sw.Roomy()) ==> r.Ok?) && (r.Err? ==> r.error == IndexOutOfBounds)
  {
    if value.dateTime.date.year < 0 {
      return Err(Serialization(NEGATIVE_DATES));
    } else if value.dateTime.date.year > 9999 {
      r := WriteQuoted(text, sw);
      return;
    }
    WriteOffsetDateTimeFixed(value, sw);
    r := Ok(());
  }

  /** The fixed layout of an offset date-time after `ensureCapacity(32)`. */
  method WriteOffsetDateTimeFixed(value: OffsetDateTime, sw: JsonWriter.JsonWriter)
    requires sw.Valid() && ValidDateTime(value.dateTime) && 0 <= value.dateTime.date.year <= 9999 && ValidOffset(value.offset)
    modifies sw, sw.result
    ensures sw.Valid() && (sw.result == old(sw.result) || fresh(sw.result))
    ensures sw.Contents() == old(sw.Contents()) + OffsetDateTimeJson(value)
  {
    ghost var text := sw.Contents();
    var end := StoreDateTimeAhead(value.dateTime, sw);
    ghost var stored := sw.result[..sw.position + end];
    WriteTimezone(end, value.offset, sw);
    Zoned(text, DateTimeText(value.dateTime), ZoneId(value.offset));
  }
}

/** `NumberConverter` of the library: decimal text of `int` and `long`
    values written with a table of three-digit groups, and read back by
    loops that accumulate digits in 32 or 64 bits; decimals as a `BigDecimal`
    built from an unscaled `long` and a scale. */
module NumberConverter {
  import opened Java
  import opened DecimalText
  import JsonWriter

  // ---------------------------------------------------------------------
  // The DIGITS table

  /** Entry `i` of `DIGITS`: the three digits of `i` in bytes 2, 1 and 0,
      and in the top byte the number of leading zeros among them. */
  function DigitsEntry(i: int): int
    requires 0 <= i < 1000
  {
    (if i < 10 then 2 * 0x100_0000 else if i < 100 then 0x100_0000 else 0)
    + ('0' as int + i / 100) * 0x1_0000
    + ('0' as int + i / 10 % 10) * 0x100
    + ('0' as int + i % 10)
  }

  /** The table's packing: bytes 0-2 are the digits of `i`, the top byte is
      2 below 10, 1 below 100 and 0 otherwise. `(byte) (v >> k)` of the
      non-negative entry `v` is `ToByte(v / 2^k)`. */
  lemma DigitsLayout(i: int)
    requires 0 <= i < 1000
    ensures ToByte(DigitsEntry(i) / 0x1_0000) == DigitByte(i / 100)
    ensures ToByte(DigitsEntry(i) / 0x100) == DigitByte(i / 10 % 10)
    ensures ToByte(DigitsEntry(i)) == DigitByte(i % 10)
    ensures DigitsEntry(i) / 0x100_0000 == if i < 10 then 2 else if i < 100 then 1 else 0
  {
    var t := if i < 10 then 2 else if i < 100 then 1 else 0;
    var a, b, c := '0' as int + i / 100, '0' as int + i / 10 % 10, '0' as int + i % 10;
    var v := DigitsEntry(i);
    DivModUnique(v, 0x100_0000, t, a * 0x1_0000 + b * 0x100 + c);
    DivModUnique(v, 0x1_0000, t * 0x100 + a, b * 0x100 + c);
    DivModUnique(v, 0x100, t * 0x1_0000 + a * 0x100 + b, c);
    LowByte(t * 0x100 + a, t, a);
    LowByte(t * 0x1_0000 + a * 0x100 + b, t * 0x100 + a, b);
    LowByte(v, t * 0x1_0000 + a * 0x100 + b, c);
  }

  /** `(byte) x` keeps the low eight bits: an ASCII byte below 128 survives. */
  lemma LowByte(x: int, k: int, c: int)
    requires x == k * 0x100 + c && 0 <= c < 128
    ensures ToByte(x) == c
  {
    DivModUnique(x + 128, 0x100, k, c + 128);
  }

  /** The top byte of an entry counts the digits a shorter number leaves
      out: the digits without it are the shortest form. */
  lemma DigitsShortest(i: int)
    requires 0 <= i < 1000
    ensures |DecimalDigits(i)| == 3 - DigitsEntry(i) / 0x100_0000
    ensures DecimalDigits(i) == Padded(i, 3)[DigitsEntry(i) / 0x100_0000..]
  {
    DigitsLayout(i);
    Padded3(i);
    if 10 <= i < 100 {
      assert DecimalDigits(i / 10) == [DigitByte(i / 10)];
      assert i / 100 == 0 && i / 10 % 10 == i / 10;
    } else if 100 <= i {
      assert DecimalDigits(i / 10) == DecimalDigits(i / 10 / 10) + [DigitByte(i / 10 % 10)];
      assert i / 10 / 10 == i / 100 && i / 100 < 10;
    }
  }

  /** The static initializer of `DIGITS`. */
  method BuildDigits() returns (digits: array<int>)
    ensures digits.Length == 1000
    ensures forall i | 0 <= i < 1000 :: digits[i] == DigitsEntry(i)
  {
    digits := new int[1000];
    for i := 0 to 1000
      invariant forall k | 0 <= k < i :: digits[k] == DigitsEntry(k)
    {
      digits[i] := (if i < 10 then 2 * 0x100_0000 else if i < 100 then 0x100_0000 else 0)
        + ('0' as int + i / 100) * 0x1_0000
        + ('0' as int + i / 10 % 10) * 0x100
        + i % 10 + '0' as int;
    }
  }

  // ---------------------------------------------------------------------
  // Fixed-width digits

  /** `write4(value, buf, pos)`: four zero-padded digits; a value above
      9999 is rejected before anything is written. A negative value indexes
      `DIGITS` with its remainder, which takes the value's sign: below zero
      the lookup throws before anything is written, and a negative multiple
      of 1000 stores the byte `(byte) (q + '0')` of its quotient `q`, then
      `000`. */
  method Write4(value: int, buf: array<Byte>, pos: int) returns (r: Result<()>)
    requires IsInt(value) && 0 <= pos && pos + 4 <= buf.Length
    modifies buf
    ensures r.Err? <==> value > 9999 || (value < 0 && value % 1000 != 0)
    ensures r.Err? ==> buf[..] == old(buf[..])
    ensures r.Err? ==> if value > 9999 then r.error.IllegalArgument? else r.error == IndexOutOfBounds
    ensures r.Ok? && 0 <= value ==> Wrote(buf[..], old(buf[..]), pos, Padded(value, 4))
    ensures r.Ok? && value < 0 ==> Wrote(buf[..], old(buf[..]), pos, [ToByte(value / 1000 + '0' as int)] + Padded(0, 3))
  {
    if value > 9999 {
      return Err(IllegalArgument("Only 4 digits numbers are supported"));
    }
    var q := TruncDiv(value, 1000);
    if value - q * 1000 < 0 {
      return Err(IndexOutOfBounds);
    }
    StoreThousands(buf, pos, q, value - q * 1000);
    if value >= 0 {
      ThousandsDigits(value);
    }
    return Ok(());
  }

  /** The body of `write4` past its checks: the byte `(byte) (q + '0')`,
      then the three digits of `DIGITS[rest]`. */
  method StoreThousands(buf: array<Byte>, pos: int, q: int, rest: int)
    requires 0 <= rest < 1000 && 0 <= pos && pos + 4 <= buf.Length
    modifies buf
    ensures Wrote(buf[..], old(buf[..]), pos, [ToByte(q + '0' as int)] + Padded(rest, 3))
  {
    var v := DigitsEntry(rest);
    DigitsLayout(rest);
    Padded3(rest);
    buf[pos] := ToByte(q + '0' as int);
    buf[pos + 1] := ToByte(v / 0x1_0000);
    buf[pos + 2] := ToByte(v / 0x100);
    buf[pos + 3] := ToByte(v);
    WroteAt(buf[..], old(buf[..]), pos, [ToByte(q + '0' as int)] + Padded(rest, 3));
  }

  /** Four zero-padded digits are the thousands digit and three more. */
  lemma ThousandsDigits(value: int)
    requires 0 <= value <= 9999
    ensures Padded(value, 4) == [ToByte(value / 1000 + '0' as int)] + Padded(value - value / 1000 * 1000, 3)
  {
    ThousandsSplit(value);
    Padded4(value);
    Padded3(value - value / 1000 * 1000);
  }

  /** `write3(number, buf, pos)`: three zero-padded digits. */
  method Write3(number: int, buf: array<Byte>, pos: int)
    requires 0 <= number < 1000 && 0 <= pos && pos + 3 <= buf.Length
    modifies buf
    ensures Wrote(buf[..], old(buf[..]), pos, Padded(number, 3))
  {
    var v := DigitsEntry(number);
    DigitsLayout(number);
    Padded3(number);
    buf[pos] := ToByte(v / 0x1_0000);
    buf[pos + 1] := ToByte(v / 0x100);
    buf[pos + 2] := ToByte(v);
    WroteAt(buf[..], old(buf[..]), pos, Padded(number, 3));
  }

  /** `write2(value, buf, pos)`: the last two digits of `value`, zero
      padded. */
  method Write2(value: int, buf: array<Byte>, pos: int)
    requires 0 <= value < 1000 && 0 <= pos && pos + 2 <= buf.Length
    modifies buf
    ensures Wrote(buf[..], old(buf[..]), pos, Padded(value, 2))
  {
    var v := DigitsEntry(value);
    DigitsLayout(value);
    Padded2(value);
    buf[pos] := ToByte(v / 0x100);
    buf[pos + 1] := ToByte(v);
    WroteAt(buf[..], old(buf[..]), pos, Padded(value, 2));
  }

  /** `read2(buf, pos)`: the number two characters spell; `(v << 3) + (v << 1)`
      is `10 * v`. */
  function Read2(buf: seq<Char>, pos: int): (r: int)
    requires 0 <= pos && pos + 2 <= |buf|
    ensures AllDigits(buf[pos..pos + 2]) ==> r == DigitsValue(buf[pos..pos + 2])
  {
    DigitsValue2(buf[pos..pos + 2]);
    var v1 := buf[pos] as int - 48;
    (v1 * 8) + (v1 * 2) + buf[pos + 1] as int - 48
  }

  /** `read4(buf, pos)`: the number four characters spell;
      `(v << 6) + (v << 5) + (v << 2)` is `100 * v`. */
  function Read4(buf: seq<Char>, pos: int): (r: int)
    requires 0 <= pos && pos + 4 <= |buf|
    ensures AllDigits(buf[pos..pos + 4]) ==> r == DigitsValue(buf[pos..pos + 4])
  {
    DigitsValue4(buf[pos..pos + 4]);
    var v2 := buf[pos + 1] as int - 48;
    var v3 := buf[pos + 2] as int - 48;
    (buf[pos] as int - 48) * 1000 + (v2 * 64) + (v2 * 32) + (v2 * 4) + (v3 * 8) + (v3 * 2) + buf[pos + 3] as int - 48
  }

  /** `read2` inverts `write2` on 0..99. */
  lemma Read2Write2(value: int, chars: seq<Char>, pos: int)
    requires 0 <= value < 100 && 0 <= pos && pos + 2 <= |chars|
    requires chars[pos..pos + 2] == Padded(value, 2)
    ensures Read2(chars, pos) == value
  {
    PaddedValue(value, 2);
  }

  /** `read4` inverts `write4` on 0..9999. */
  lemma Read4Write4(value: int, chars: seq<Char>, pos: int)
    requires 0 <= value <= 9999 && 0 <= pos && pos + 4 <= |chars|
    requires chars[pos..pos + 4] == Padded(value, 4)
    ensures Read4(chars, pos) == value
  {
    ghost var s := chars[pos..pos + 4];
    PaddedValue(value, 4);
    assert Pow10(4) == 10000;
    assert AllDigits(s) && DigitsValue(s) == value;
  }

  // ---------------------------------------------------------------------
  // Writing int and long

  /** `writeFirstBuf(buf, v, pos)` for `v = DIGITS[n]`: the digits of `n`
      without leading zeros; returns how many. */
  method WriteFirstBuf(buf: array<Byte>, v: int, pos: int, ghost n: int) returns (len: int)
    requires 0 <= n < 1000 && v == DigitsEntry(n)
    requires 0 <= pos && pos + |DecimalDigits(n)| <= buf.Length
    modifies buf
    ensures len == |DecimalDigits(n)| && Wrote(buf[..], old(buf[..]), pos, DecimalDigits(n))
  {
    DigitsShortest(n);
    DigitsLayout(n);
    Padded3(n);
    var start := v / 0x100_0000;
    var p := pos;
    if start == 0 {
      buf[p] := ToByte(v / 0x1_0000);
      p := p + 1;
      buf[p] := ToByte(v / 0x100);
      p := p + 1;
    } else if start == 1 {
      buf[p] := ToByte(v / 0x100);
      p := p + 1;
    }
    buf[p] := ToByte(v);
    WroteAt(buf[..], old(buf[..]), pos, DecimalDigits(n));
    return 3 - start;
  }

  /** `writeBuf(buf, v, pos)` for `v = DIGITS[n]`: all three digits. The
      ghost parameters name the write in progress that these digits extend:
      `w` written at `start`, ending at `pos`. */
  method WriteBuf(buf: array<Byte>, v: int, pos: int, ghost n: int,
                  ghost before: seq<Byte>, ghost start: int, ghost w: seq<Byte>)
    requires 0 <= n < 1000 && v == DigitsEntry(n)
    requires Wrote(buf[..], before, start, w) && pos == start + |w| && pos + 3 <= buf.Length
    modifies buf
    ensures Wrote(buf[..], before, start, w + Padded(n, 3))
  {
    ghost var b := buf[..];
    DigitsLayout(n);
    Padded3(n);
    buf[pos] := ToByte(v / 0x1_0000);
    buf[pos + 1] := ToByte(v / 0x100);
    buf[pos + 2] := ToByte(v);
    WroteAt(buf[..], b, pos, Padded(n, 3));
    WroteThen(before, b, buf[..], start, w, Padded(n, 3));
  }

  /** `MIN_INT`, the bytes of `"-2147483648"`, spelled in the groups of
      three digits that the proof below follows. */
  const MIN_INT: seq<Byte> := ['-' as int, '2' as int] + ['1' as int, '4' as int, '7' as int]
    + ['4' as int, '8' as int, '3' as int] + ['6' as int, '4' as int, '8' as int]

  /** `MIN_LONG`, the bytes of `"-9223372036854775808"`, spelled the same way. */
  const MIN_LONG: seq<Byte> := ['-' as int, '9' as int] + ['2' as int, '2' as int, '3' as int]
    + ['3' as int, '7' as int, '2' as int] + ['0' as int, '3' as int, '6' as int]
    + ['8' as int, '5' as int, '4' as int] + ['7' as int, '7' as int, '5' as int]
    + ['8' as int, '0' as int, '8' as int]

  /** One more group of three digits behind a minus sign and the digits of `q`. */
  lemma MinusGroup(n: int, q: int, r: int, g: seq<Byte>, p: seq<Byte>)
    requires 1 <= q && 0 <= r < 1000 && n == q * 1000 + r
    requires g == [DigitByte(r / 100), DigitByte(r / 10 % 10), DigitByte(r % 10)]
    requires [MINUS] + DecimalDigits(q) == p
    ensures [MINUS] + DecimalDigits(n) == p + g
  {
    Group3(n, q, r);
    Padded3(r);
  }

  /** The special case for `Integer.MIN_VALUE` writes its decimal form. */
  lemma MinIntText(v: int)
    requires v == INT_MIN
    ensures Decimal(v) == MIN_INT
  {
    var q3 := 2;
    var q2 := q3 * 1000 + 147;
    var q1 := q2 * 1000 + 483;
    var n := q1 * 1000 + 648;
    var p := ['-' as int, '2' as int];
    assert DecimalDigits(q3) == [DigitByte(q3)];
    MinusGroup(q2, q3, 147, ['1' as int, '4' as int, '7' as int], p);
    p := p + ['1' as int, '4' as int, '7' as int];
    MinusGroup(q1, q2, 483, ['4' as int, '8' as int, '3' as int], p);
    p := p + ['4' as int, '8' as int, '3' as int];
    MinusGroup(n, q1, 648, ['6' as int, '4' as int, '8' as int], p);
  }

  /** The special case for `Long.MIN_VALUE` writes its decimal form. */
  lemma MinLongText(v: int)
    requires v == LONG_MIN
    ensures Decimal(v) == MIN_LONG
  {
    var q6 := 9;
    var q5 := q6 * 1000 + 223;
    var q4 := q5 * 1000 + 372;
    var q3 := q4 * 1000 + 36;
    var q2 := q3 * 1000 + 854;
    var q1 := q2 * 1000 + 775;
    var n := q1 * 1000 + 808;
    var p := ['-' as int, '9' as int];
    assert DecimalDigits(q6) == [DigitByte(q6)];
    MinusGroup(q5, q6, 223, ['2' as int, '2' as int, '3' as int], p);
    p := p + ['2' as int, '2' as int, '3' as int];
    MinusGroup(q4, q5, 372, ['3' as int, '7' as int, '2' as int], p);
    p := p + ['3' as int, '7' as int, '2' as int];
    MinusGroup(q3, q4, 36, ['0' as int, '3' as int, '6' as int], p);
    p := p + ['0' as int, '3' as int, '6' as int];
    MinusGroup(q2, q3, 854, ['8' as int, '5' as int, '4' as int], p);
    p := p + ['8' as int, '5' as int, '4' as int];
    MinusGroup(q1, q2, 775, ['7' as int, '7' as int, '5' as int], p);
    p := p + ['7' as int, '7' as int, '5' as int];
    MinusGroup(n, q1, 808, ['8' as int, '0' as int, '8' as int], p);
  }

  /** Copy the literal `bytes` to `pos`, as the loops over `MIN_INT` and
      `MIN_LONG` do. */
  method CopyLiteral(buf: array<Byte>, pos: int, bytes: seq<Byte>)
    requires 0 <= pos && pos + |bytes| <= buf.Length
    modifies buf
    ensures Wrote(buf[..], old(buf[..]), pos, bytes)
  {
    WroteNothing(buf[..], pos);
    for x := 0 to |bytes|
      invariant Wrote(buf[..], old(buf[..]), pos, bytes[..x])
    {
      ghost var b := buf[..];
      buf[pos + x] := bytes[x];
      WroteByte(b, pos + x, bytes[x]);
      WroteThen(old(buf[..]), b, buf[..], pos, bytes[..x], [bytes[x]]);
      assert bytes[..x] + [bytes[x]] == bytes[..x + 1];
    }
    assert bytes[..|bytes|] == bytes;
  }

  /** The private `serialize(buf, pos, int)`: the decimal form of `value`
      at `pos`; returns the position after it. */
  method SerializeIntAt(buf: array<Byte>, pos0: int, value: int) returns (end: int)
    requires IsInt(value) && 0 <= pos0 && pos0 + |Decimal(value)| <= buf.Length
    modifies buf
    ensures end == pos0 + |Decimal(value)| && Wrote(buf[..], old(buf[..]), pos0, Decimal(value))
  {
    if value == INT_MIN {
      MinIntText(value);
      CopyLiteral(buf, pos0, MIN_INT);
      return pos0 + |MIN_INT|;
    }
    ghost var before := buf[..];
    var pos := pos0;
    var i: int;
    ghost var sign: seq<Byte> := [];
    if value < 0 {
      i := -value;
      buf[pos] := MINUS;
      WroteByte(before, pos, MINUS);
      pos := pos + 1;
      sign := [MINUS];
    } else {
      i := value;
      WroteNothing(before, pos);
    }
    ghost var b := buf[..];
    end := IntDigitsAt(buf, pos, i);
    WroteThen(before, b, buf[..], pos0, sign, DecimalDigits(i));
  }

  /** The digits part of `serialize(buf, pos, int)`, for the magnitude `i`
      of the value: one, two or three groups of three digits below the
      leading group. */
  method IntDigitsAt(buf: array<Byte>, pos0: int, i: int) returns (end: int)
    requires 0 <= i <= INT_MAX && 0 <= pos0 && pos0 + |DecimalDigits(i)| <= buf.Length
    modifies buf
    ensures end == pos0 + |DecimalDigits(i)| && Wrote(buf[..], old(buf[..]), pos0, DecimalDigits(i))
  {
    ghost var before := buf[..];
    var pos := pos0;
    var q1 := i / 1000;
    if q1 == 0 {
      var len := WriteFirstBuf(buf, DigitsEntry(i), pos, i);
      return pos + len;
    }
    var r1 := i - q1 * 1000;
    Group3(i, q1, r1);
    var q2 := q1 / 1000;
    if q2 == 0 {
      var v1 := DigitsEntry(r1);
      var v2 := DigitsEntry(q1);
      var off := WriteFirstBuf(buf, v2, pos, q1);
      WriteBuf(buf, v1, pos + off, r1, before, pos0, DecimalDigits(q1));
      return pos + 3 + off;
    }
    end := LargeIntDigitsAt(buf, pos0, i);
  }

  /** The digits of a magnitude of at least a million: a leading group,
      then two or three groups of three digits. */
  method LargeIntDigitsAt(buf: array<Byte>, pos0: int, i: int) returns (end: int)
    requires 1000000 <= i <= INT_MAX && 0 <= pos0 && pos0 + |DecimalDigits(i)| <= buf.Length
    modifies buf
    ensures end == pos0 + |DecimalDigits(i)| && Wrote(buf[..], old(buf[..]), pos0, DecimalDigits(i))
  {
    ghost var before := buf[..];
    var pos := pos0;
    var q1 := i / 1000;
    var r1 := i - q1 * 1000;
    Group3(i, q1, r1);
    var q2 := q1 / 1000;
    var r2 := q1 - q2 * 1000;
    Group3(q1, q2, r2);
    var q3 := q2 / 1000;
    var v1 := DigitsEntry(r1);
    var v2 := DigitsEntry(r2);
    if q3 == 0 {
      var len := WriteFirstBuf(buf, DigitsEntry(q2), pos, q2);
      pos := pos + len;
    } else {
      var r3 := q2 - q3 * 1000;
      Group3(q2, q3, r3);
      buf[pos] := ToByte(q3 + '0' as int);
      WroteByte(before, pos, DigitByte(q3));
      assert DecimalDigits(q3) == [DigitByte(q3)];
      pos := pos + 1;
      WriteBuf(buf, DigitsEntry(r3), pos, r3, before, pos0, DecimalDigits(q3));
      pos := pos + 3;
    }
    WriteBuf(buf, v2, pos, r2, before, pos0, DecimalDigits(q2));
    WriteBuf(buf, v1, pos + 3, r1, before, pos0, DecimalDigits(q1));
    return pos + 6;
  }

  /** The private `serialize(buf, pos, long)`: the decimal form of `value`
      at `pos`; returns the position after it. */
  method SerializeLongAt(buf: array<Byte>, pos0: int, value: int) returns (end: int)
    requires IsLong(value) && 0 <= pos0 && pos0 + |Decimal(value)| <= buf.Length
    modifies buf
    ensures end == pos0 + |Decimal(value)| && Wrote(buf[..], old(buf[..]), pos0, Decimal(value))
  {
    if value == LONG_MIN {
      MinLongText(value);
      CopyLiteral(buf, pos0, MIN_LONG);
      return pos0 + |MIN_LONG|;
    }
    ghost var before := buf[..];
    var pos := pos0;
    var i: int;
    ghost var sign: seq<Byte> := [];
    if value < 0 {
      i := -value;
      buf[pos] := MINUS;
      WroteByte(before, pos, MINUS);
      pos := pos + 1;
      sign := [MINUS];
    } else {
      i := value;
      WroteNothing(before, pos);
    }
    ghost var b := buf[..];
    end := LongDigitsAt(buf, pos, i);
    WroteThen(before, b, buf[..], pos0, sign, DecimalDigits(i));
  }

  /** The digits part of `serialize(buf, pos, long)` for the magnitude `i`:
      up to three groups here, the groups above the ninth digit in
      `LongHeadAt`. */
  method LongDigitsAt(buf: array<Byte>, pos0: int, i: int) returns (end: int)
    requires 0 <= i <= LONG_MAX && 0 <= pos0 && pos0 + |DecimalDigits(i)| <= buf.Length
    modifies buf
    ensures end == pos0 + |DecimalDigits(i)| && Wrote(buf[..], old(buf[..]), pos0, DecimalDigits(i))
  {
    ghost var before := buf[..];
    var pos := pos0;
    var q1 := i / 1000;
    if q1 == 0 {
      var len := WriteFirstBuf(buf, DigitsEntry(i), pos, i);
      return pos + len;
    }
    var r1 := i - q1 * 1000;
    Group3(i, q1, r1);
    var q2 := q1 / 1000;
    if q2 == 0 {
      var v1 := DigitsEntry(r1);
      var v2 := DigitsEntry(q1);
      var off := WriteFirstBuf(buf, v2, pos, q1);
      WriteBuf(buf, v1, pos + off, r1, before, pos0, DecimalDigits(q1));
      return pos + 3 + off;
    }
    end := LargeLongDigitsAt(buf, pos0, i);
  }

  /** The digits of a magnitude of at least a million: a leading group,
      then two or three groups of three digits (the leading groups above
      the ninth digit in `LongHeadAt`). */
  method LargeLongDigitsAt(buf: array<Byte>, pos0: int, i: int) returns (end: int)
    requires 1000000 <= i <= LONG_MAX && 0 <= pos0 && pos0 + |DecimalDigits(i)| <= buf.Length
    modifies buf
    ensures end == pos0 + |DecimalDigits(i)| && Wrote(buf[..], old(buf[..]), pos0, DecimalDigits(i))
  {
    ghost var before := buf[..];
    var pos := pos0;
    var q1 := i / 1000;
    var r1 := i - q1 * 1000;
    Group3(i, q1, r1);
    var q2 := q1 / 1000;
    var r2 := q1 - q2 * 1000;
    Group3(q1, q2, r2);
    var q3 := q2 / 1000;
    if q3 == 0 {
      var v1 := DigitsEntry(r1);
      var v2 := DigitsEntry(r2);
      var v3 := DigitsEntry(q2);
      var len := WriteFirstBuf(buf, v3, pos, q2);
      pos := pos + len;
      WriteBuf(buf, v2, pos, r2, before, pos0, DecimalDigits(q2));
      WriteBuf(buf, v1, pos + 3, r1, before, pos0, DecimalDigits(q1));
      return pos + 6;
    }
    var r3 := q2 - q3 * 1000;
    Group3(q2, q3, r3);
    var len := LongHeadAt(buf, pos, q3);
    pos := pos + len;
    WriteBuf(buf, DigitsEntry(r3), pos, r3, before, pos0, DecimalDigits(q3));
    WriteBuf(buf, DigitsEntry(r2), pos + 3, r2, before, pos0, DecimalDigits(q2));
    WriteBuf(buf, DigitsEntry(r1), pos + 6, r1, before, pos0, DecimalDigits(q1));
    return pos + 9;
  }

  /** The leading groups of a long of ten or more digits: `q3`, the value
      without its last nine digits, written as the branches for `q4 == 0`,
      `q5 == 0` and the rest of `serialize(buf, pos, long)` write it. */
  method LongHeadAt(buf: array<Byte>, pos0: int, q3: int) returns (len: int)
    requires 1 <= q3 <= LONG_MAX / 1_000_000_000 && 0 <= pos0 && pos0 + |DecimalDigits(q3)| <= buf.Length
    modifies buf
    ensures len == |DecimalDigits(q3)| && Wrote(buf[..], old(buf[..]), pos0, DecimalDigits(q3))
  {
    ghost var before := buf[..];
    var pos := pos0;
    var q4 := q3 / 1000;
    if q4 == 0 {
      len := WriteFirstBuf(buf, DigitsEntry(q3), pos, q3);
      return;
    }
    var r4 := q3 - q4 * 1000;
    Group3(q3, q4, r4);
    var q5 := q4 / 1000;
    if q5 == 0 {
      var off := WriteFirstBuf(buf, DigitsEntry(q4), pos, q4);
      WriteBuf(buf, DigitsEntry(r4), pos + off, r4, before, pos0, DecimalDigits(q4));
      return off + 3;
    }
    var r5 := q4 - q5 * 1000;
    Group3(q4, q5, r5);
    var q6 := q5 / 1000;
    if q6 == 0 {
      var off := WriteFirstBuf(buf, DigitsEntry(q5), pos, q5);
      pos := pos + off;
    } else {
      var r6 := q5 - q6 * 1000;
      Group3(q5, q6, r6);
      buf[pos] := ToByte(q6 + '0' as int);
      WroteByte(before, pos, DigitByte(q6));
      assert DecimalDigits(q6) == [DigitByte(q6)];
      pos := pos + 1;
      WriteBuf(buf, DigitsEntry(r6), pos, r6, before, pos0, DecimalDigits(q6));
      pos := pos + 3;
    }
    WriteBuf(buf, DigitsEntry(r5), pos, r5, before, pos0, DecimalDigits(q5));
    WriteBuf(buf, DigitsEntry(r4), pos + 3, r4, before, pos0, DecimalDigits(q4));
    return pos + 6 - pos0;
  }

  /** The decimal form of an `int` has at most eleven bytes, of a `long` at
      most twenty: the room `serialize` reserves. */
  lemma DecimalLength(value: int)
    requires IsLong(value)
    ensures |Decimal(value)| <= 20
    ensures IsInt(value) ==> |Decimal(value)| <= 11
  {
    var n := if value < 0 then -value else value;
    assert Pow10(10) == 10_000_000_000;
    assert Pow10(19) == 10_000_000_000_000_000_000;
    DecimalDigitsAtMost(n, 19);
    if IsInt(value) {
      DecimalDigitsAtMost(n, 10);
    }
  }

  /** `serialize(int, sw)`: the decimal form of `value` appended to the
      writer. */
  method SerializeInt(value: int, sw: JsonWriter.JsonWriter)
    requires IsInt(value) && sw.Valid()
    modifies sw, sw.result
    ensures sw.Valid() && sw.Contents() == old(sw.Contents()) + Decimal(value)
    ensures sw.result == old(sw.result) || fresh(sw.result)
    ensures sw.result.Length >= old(sw.result.Length)
    ensures sw.result.Length >= 11
  {
    DecimalLength(value);
    sw.EnsureCapacity(11);
    var buf := sw.result;
    var position := sw.Size();
    ghost var b := buf[..];
    var current := SerializeIntAt(buf, position, value);
    WrotePrefix(buf[..], b, position, Decimal(value));
    sw.Advance(current - position);
  }

  /** `serialize(long, sw)`: the decimal form of `value` appended to the
      writer. */
  method SerializeLong(value: int, sw: JsonWriter.JsonWriter)
    requires IsLong(value) && sw.Valid()
    modifies sw, sw.result
    ensures sw.Valid() && sw.Contents() == old(sw.Contents()) + Decimal(value)
    ensures sw.result == old(sw.result) || fresh(sw.result)
    ensures sw.result.Length >= old(sw.result.Length)
  {
    DecimalLength(value);
    sw.EnsureCapacity(21);
    var buf := sw.result;
    var position := sw.Size();
    ghost var b := buf[..];
    var current := SerializeLongAt(buf, position, value);
    WrotePrefix(buf[..], b, position, Decimal(value));
    sw.Advance(current - position);
  }

  /** `serializeNullable(Integer, sw)` (`wide` false) and
      `serializeNullable(Long, sw)` (`wide` true): `null` for a missing
      value. */
  method SerializeNullable(value: Option<int>, wide: bool, sw: JsonWriter.JsonWriter) returns (r: Result<()>)
    requires sw.Valid() && (value.Some? ==> if wide then IsLong(value.value) else IsInt(value.value))
    modifies sw, sw.result
    ensures sw.Valid() && (sw.result == old(sw.result) || fresh(sw.result))
    ensures value.Some? ==> r.Ok? && sw.Contents() == old(sw.Contents()) + Decimal(value.value)
    ensures value.None? ==> r == if JsonWriter.NullFits(old(sw.result.Length), old(sw.position)) then Ok(()) else Err(IndexOutOfBounds)
    ensures value.None? && r.Ok? ==> sw.Contents() == old(sw.Contents()) + NULL
    ensures r.Err? ==> sw.Contents() == old(sw.Contents())
  {
    if value.None? {
      r := sw.WriteNull();
    } else if wide {
      SerializeLong(value.value, sw);
      r := Ok(());
    } else {
      SerializeInt(value.value, sw);
      r := Ok(());
    }
  }

  // ---------------------------------------------------------------------
  // Arrays of int and long

  /** The decimal forms of `values` separated by commas. */
  function JoinDecimal(values: seq<int>): (r: seq<Byte>)
    requires values != []
    ensures |r| >= 2 * |values| - 1
    decreases |values|
  {
    if |values| == 1 then Decimal(values[0])
    else JoinDecimal(values[..|values| - 1]) + [COMMA] + Decimal(values[|values| - 1])
  }

  /** The JSON text of an array of numbers: `[]` when empty, otherwise the
      joined decimal forms between brackets. */
  function NumberArrayBytes(values: seq<int>): seq<Byte> {
    if values == [] then [ARRAY_START, ARRAY_END] else [ARRAY_START] + JoinDecimal(values) + [ARRAY_END]
  }

  /** The length of the result array after `ensureCapacity(free)` on a
      writer whose array has `length` bytes and whose position is `position`. */
  function CapacityAfter(length: int, position: int, free: int): int {
    if position + free < length then length else 3 * length + free
  }

  /** Each value of an array takes at most `width` bytes and a separator. */
  lemma {:induction false} JoinDecimalLength(values: seq<int>, width: int)
    requires values != [] && forall k | 0 <= k < |values| :: |Decimal(values[k])| <= width
    ensures |JoinDecimal(values)| <= (width + 1) * |values| - 1
    decreases |values|
  {
    if |values| > 1 {
      var m := |values| - 1;
      var init := values[..m];
      assert forall k | 0 <= k < |init| :: init[k] == values[k];
      JoinDecimalLength(init, width);
      assert |JoinDecimal(values)| == |JoinDecimal(init)| + 1 + |Decimal(values[m])|;
      MulStep(width + 1, m);
    }
  }

  lemma MulStep(a: int, m: int)
    ensures a * (m + 1) == a * m + a
  {
  }

  /** A prefix of the values writes a prefix of the text. */
  lemma {:induction false} JoinDecimalPrefix(values: seq<int>, i: int)
    requires 1 <= i <= |values|
    ensures |JoinDecimal(values[..i])| <= |JoinDecimal(values)|
    decreases |values|
  {
    if i < |values| {
      assert values[..|values| - 1][..i] == values[..i];
      JoinDecimalPrefix(values[..|values| - 1], i);
    } else {
      assert values[..i] == values;
    }
  }

  /** Appending the next element to the text written so far. */
  lemma JoinStep(values: seq<int>, i: int)
    requires 1 <= i < |values|
    ensures [ARRAY_START] + JoinDecimal(values[..i + 1]) == [ARRAY_START] + JoinDecimal(values[..i]) + [COMMA] + Decimal(values[i])
  {
    ghost var p := values[..i + 1];
    assert p[..|p| - 1] == values[..i] && p[|p| - 1] == values[i];
    assert JoinDecimal(p) == JoinDecimal(values[..i]) + [COMMA] + Decimal(values[i]);
    JsonWriter.Append3([ARRAY_START], JoinDecimal(values[..i]), [COMMA], Decimal(values[i]));
  }

  /** One more element of an array: the separator `sep`, then the decimal
      form of `v`, extending the write `w` in progress at `start`. */
  method WriteElementAt(buf: array<Byte>, pos: int, sep: Byte, v: int, wide: bool,
                        ghost before: seq<Byte>, ghost start: int, ghost w: seq<Byte>) returns (end: int)
    requires if wide then IsLong(v) else IsInt(v)
    requires Wrote(buf[..], before, start, w) && pos == start + |w| && pos + 1 + |Decimal(v)| <= buf.Length
    modifies buf
    ensures end == pos + 1 + |Decimal(v)| && Wrote(buf[..], before, start, w + [sep] + Decimal(v))
  {
    ghost var b := buf[..];
    buf[pos] := sep;
    WroteByte(b, pos, sep);
    WroteThen(before, b, buf[..], start, w, [sep]);
    end := WriteNumberAt(buf, pos + 1, v, wide, before, start, w + [sep]);
  }

  /** The decimal form of `v` after the write `w` in progress at `start`. */
  method WriteNumberAt(buf: array<Byte>, pos: int, v: int, wide: bool,
                       ghost before: seq<Byte>, ghost start: int, ghost w: seq<Byte>) returns (end: int)
    requires if wide then IsLong(v) else IsInt(v)
    requires Wrote(buf[..], before, start, w) && pos == start + |w| && pos + |Decimal(v)| <= buf.Length
    modifies buf
    ensures end == pos + |Decimal(v)| && Wrote(buf[..], before, start, w + Decimal(v))
  {
    ghost var b := buf[..];
    if wide {
      end := SerializeLongAt(buf, pos, v);
    } else {
      end := SerializeIntAt(buf, pos, v);
    }
    WroteThen(before, b, buf[..], start, w, Decimal(v));
  }

  /** The body shared by `serialize(int[], sw)` and `serialize(long[], sw)`
      for a non-empty array: reserve `perValue` bytes per value and two for
      the brackets, then store the text. A store past the end of the array
      throws, and the output is then unchanged. */
  method SerializeNumbers(values: seq<int>, sw: JsonWriter.JsonWriter, wide: bool, perValue: int) returns (r: Result<()>)
    requires sw.Valid() && values != [] && 0 <= perValue
    requires forall k | 0 <= k < |values| :: if wide then IsLong(values[k]) else IsInt(values[k])
    modifies sw, sw.result
    ensures sw.Valid() && (sw.result == old(sw.result) || fresh(sw.result))
    ensures r.Ok? <==> old(sw.position) + |NumberArrayBytes(values)|
                         <= CapacityAfter(old(sw.result.Length), old(sw.position), perValue * |values| + 2)
    ensures r.Ok? ==> sw.Contents() == old(sw.Contents()) + NumberArrayBytes(values)
    ensures r.Err? ==> r.error == IndexOutOfBounds && sw.Contents() == old(sw.Contents())
  {
    sw.EnsureCapacity(perValue * |values| + 2);
    var buf := sw.result;
    var position := sw.Size();
    ghost var b0 := buf[..];
    var stored := StoreNumbers(buf, position, values, wide);
    if stored.Err? {
      return Err(stored.error);
    }
    WrotePrefix(buf[..], b0, position, NumberArrayBytes(values));
    var size := sw.Size();
    sw.Advance(stored.value - size);
    return Ok(());
  }

  /** The stores of `serialize(int[]|long[], sw)` from `start` on: `[`, the
      values separated by commas, `]`, each store checked against the end
      of the array as the JVM checks it. */
  method StoreNumbers(buf: array<Byte>, start: int, values: seq<int>, wide: bool) returns (r: Result<int>)
    requires 0 <= start <= buf.Length && values != []
    requires forall k | 0 <= k < |values| :: if wide then IsLong(values[k]) else IsInt(values[k])
    modifies buf
    ensures r.Ok? <==> start + |NumberArrayBytes(values)| <= buf.Length
    ensures r.Ok? ==> r.value == start + |NumberArrayBytes(values)|
    ensures r.Ok? ==> Wrote(buf[..], old(buf[..]), start, NumberArrayBytes(values))
    ensures r.Err? ==> r.error == IndexOutOfBounds
    ensures buf[..start] == old(buf[..start])
  {
    ghost var b0 := buf[..];
    var stored := StoreElements(buf, start, values, wide);
    if stored.Err? {
      return stored;
    }
    var position := stored.value;
    if position + 1 > buf.Length {
      WroteKeeps(buf[..], b0, start, [ARRAY_START] + JoinDecimal(values));
      return Err(IndexOutOfBounds);
    }
    ghost var b := buf[..];
    buf[position] := ARRAY_END;
    WroteByte(b, position, ARRAY_END);
    WroteThen(b0, b, buf[..], start, [ARRAY_START] + JoinDecimal(values), [ARRAY_END]);
    WroteKeeps(buf[..], b0, start, NumberArrayBytes(values));
    return Ok(position + 1);
  }

  /** `[` and the values separated by commas, as `StoreNumbers` stores them. */
  method StoreElements(buf: array<Byte>, start: int, values: seq<int>, wide: bool) returns (r: Result<int>)
    requires 0 <= start <= buf.Length && values != []
    requires forall k | 0 <= k < |values| :: if wide then IsLong(values[k]) else IsInt(values[k])
    modifies buf
    ensures r.Ok? <==> start + 1 + |JoinDecimal(values)| <= buf.Length
    ensures r.Ok? ==> r.value == start + 1 + |JoinDecimal(values)|
    ensures r.Ok? ==> Wrote(buf[..], old(buf[..]), start, [ARRAY_START] + JoinDecimal(values))
    ensures r.Err? ==> r.error == IndexOutOfBounds && buf[..start] == old(buf[..start])
  {
    ghost var b0 := buf[..];
    JoinDecimalPrefix(values, 1);
    assert JoinDecimal(values[..1]) == Decimal(values[0]);
    var next := StoreFirst(buf, start, values[0], wide);
    if next.Err? {
      return next;
    }
    var position := next.value;
    for i := 1 to |values|
      invariant Wrote(buf[..], b0, start, [ARRAY_START] + JoinDecimal(values[..i]))
      invariant position == start + 1 + |JoinDecimal(values[..i])|
    {
      next := StoreNext(buf, position, values, i, wide, b0, start);
      if next.Err? {
        return next;
      }
      position := next.value;
    }
    assert values[..|values|] == values;
    return Ok(position);
  }

  /** The stores for the first value `v`: `[` and its decimal form, unless
      they would pass the end of the array. */
  method StoreFirst(buf: array<Byte>, start: int, v: int, wide: bool) returns (r: Result<int>)
    requires 0 <= start <= buf.Length && (if wide then IsLong(v) else IsInt(v))
    modifies buf
    ensures r.Ok? ==> Wrote(buf[..], old(buf[..]), start, [ARRAY_START] + Decimal(v))
                      && r.value == start + 1 + |Decimal(v)|
    ensures r.Err? ==> r.error == IndexOutOfBounds && start + 1 + |Decimal(v)| > buf.Length
                       && buf[..] == old(buf[..])
  {
    if start + 1 + |Decimal(v)| > buf.Length {
      r := Err(IndexOutOfBounds);
    } else {
      ghost var b := buf[..];
      buf[start] := ARRAY_START;
      WroteByte(b, start, ARRAY_START);
      var end := WriteNumberAt(buf, start + 1, v, wide, b, start, [ARRAY_START]);
      r := Ok(end);
    }
  }

  /** The stores for value `i > 0`: `,` and its decimal form, unless they
      would pass the end of the array. */
  method StoreNext(buf: array<Byte>, pos: int, values: seq<int>, i: int, wide: bool,
                   ghost b0: seq<Byte>, ghost start: int) returns (r: Result<int>)
    requires 1 <= i < |values| && (if wide then IsLong(values[i]) else IsInt(values[i]))
    requires Wrote(buf[..], b0, start, [ARRAY_START] + JoinDecimal(values[..i]))
    requires pos == start + 1 + |JoinDecimal(values[..i])|
    modifies buf
    ensures r.Ok? ==> Wrote(buf[..], b0, start, [ARRAY_START] + JoinDecimal(values[..i + 1]))
                      && r.value == start + 1 + |JoinDecimal(values[..i + 1])|
    ensures r.Err? ==> r.error == IndexOutOfBounds && start + 1 + |JoinDecimal(values)| > buf.Length
                       && buf[..start] == b0[..start]
  {
    JoinDecimalPrefix(values, i + 1);
    JoinStep(values, i);
    ghost var w := [ARRAY_START] + JoinDecimal(values[..i]);
    if pos + 1 + |Decimal(values[i])| > buf.Length {
      WroteKeeps(buf[..], b0, start, w);
      return Err(IndexOutOfBounds);
    }
    var end := WriteElementAt(buf, pos, COMMA, values[i], wide, b0, start, w);
    return Ok(end);
  }

  /** `serialize(int[], sw)` as written: `null` for a missing array, `[]`
      for an empty one, otherwise the values after reserving 11 bytes per
      value and two for the brackets. */
  method SerializeIntArray(values: Option<seq<int>>, sw: JsonWriter.JsonWriter) returns (r: Result<()>)
    requires sw.Valid()
    requires values.Some? ==> forall k | 0 <= k < |values.value| :: IsInt(values.value[k])
    modifies sw, sw.result
    ensures sw.Valid() && (sw.result == old(sw.result) || fresh(sw.result))
    ensures values.None? ==> r == if JsonWriter.NullFits(old(sw.result.Length), old(sw.position)) then Ok(()) else Err(IndexOutOfBounds)
    ensures values == Some([]) ==> r.Ok?
    ensures values.Some? && values.value != [] ==>
              (r.Ok? <==> old(sw.position) + |NumberArrayBytes(values.value)|
                          <= CapacityAfter(old(sw.result.Length), old(sw.position), 11 * |values.value| + 2))
    ensures r.Ok? ==> sw.Contents() == old(sw.Contents()) + ArrayText(values)
    ensures r.Err? ==> r.error == IndexOutOfBounds && sw.Contents() == old(sw.Contents())
  {
    r := SerializeArray(values, sw, false, 11);
  }

  /** `serialize(int[], sw)` reserving 12 bytes per value, enough for the
      longest value and its separator: it never runs out of room. */
  method SerializeIntArrayReserved(values: Option<seq<int>>, sw: JsonWriter.JsonWriter) returns (r: Result<()>)
    requires sw.Valid()
    requires values.Some? ==> forall k | 0 <= k < |values.value| :: IsInt(values.value[k])
    modifies sw, sw.result
    ensures sw.Valid() && (sw.result == old(sw.result) || fresh(sw.result))
    ensures values.None? ==> r == if JsonWriter.NullFits(old(sw.result.Length), old(sw.position)) then Ok(()) else Err(IndexOutOfBounds)
    ensures values.Some? ==> r.Ok?
    ensures r.Ok? ==> sw.Contents() == old(sw.Contents()) + ArrayText(values)
    ensures r.Err? ==> r.error == IndexOutOfBounds && sw.Contents() == old(sw.Contents())
  {
    if values.Some? && values.value != [] {
      RoomSuffices(values.value, false, sw.result.Length, sw.position);
    }
    r := SerializeArray(values, sw, false, 12);
  }

  /** `serialize(long[], sw)`: 21 bytes per value are enough for the longest
      value and its separator, so it never runs out of room. */
  method SerializeLongArray(values: Option<seq<int>>, sw: JsonWriter.JsonWriter) returns (r: Result<()>)
    requires sw.Valid()
    requires values.Some? ==> forall k | 0 <= k < |values.value| :: IsLong(values.value[k])
    modifies sw, sw.result
    ensures sw.Valid() && (sw.result == old(sw.result) || fresh(sw.result))
    ensures values.None? ==> r == if JsonWriter.NullFits(old(sw.result.Length), old(sw.position)) then Ok(()) else Err(IndexOutOfBounds)
    ensures values.Some? ==> r.Ok?
    ensures r.Ok? ==> sw.Contents() == old(sw.Contents()) + ArrayText(values)
    ensures r.Err? ==> r.error == IndexOutOfBounds && sw.Contents() == old(sw.Contents())
  {
    if values.Some? && values.value != [] {
      RoomSuffices(values.value, true, sw.result.Length, sw.position);
    }
    r := SerializeArray(values, sw, true, 21);
  }

  /** The text of a possibly missing array of numbers. */
  function ArrayText(values: Option<seq<int>>): seq<Byte> {
    if values.None? then NULL else NumberArrayBytes(values.value)
  }

  /** The three cases of `serialize(int[]|long[], sw)`. */
  method SerializeArray(values: Option<seq<int>>, sw: JsonWriter.JsonWriter, wide: bool, perValue: int) returns (r: Result<()>)
    requires sw.Valid() && 0 <= perValue
    requires values.Some? ==> forall k | 0 <= k < |values.value| :: if wide then IsLong(values.value[k]) else IsInt(values.value[k])
    modifies sw, sw.result
    ensures sw.Valid() && (sw.result == old(sw.result) || fresh(sw.result))
    ensures values.None? ==> r == if JsonWriter.NullFits(old(sw.result.Length), old(sw.position)) then Ok(()) else Err(IndexOutOfBounds)
    ensures values == Some([]) ==> r.Ok?
    ensures values.Some? && values.value != [] ==>
              (r.Ok? <==> old(sw.position) + |NumberArrayBytes(values.value)|
                          <= CapacityAfter(old(sw.result.Length), old(sw.position), perValue * |values.value| + 2))
    ensures r.Ok? ==> sw.Contents() == old(sw.Contents()) + ArrayText(values)
    ensures r.Err? ==> r.error == IndexOutOfBounds && sw.Contents() == old(sw.Contents())
  {
    match values {
      case None =>
        r := sw.WriteNull();
      case Some(vs) =>
        if |vs| == 0 {
          sw.WriteAscii([ARRAY_START, ARRAY_END]);
          r := Ok(());
        } else {
          r := SerializeNumbers(vs, sw, wide, perValue);
        }
    }
  }

  /** With at least one more byte per value than its longest decimal form,
      the reserved room holds the whole array. */
  lemma RoomSuffices(values: seq<int>, wide: bool, length: int, position: int)
    requires values != [] && 0 <= position <= length
    requires forall k | 0 <= k < |values| :: if wide then IsLong(values[k]) else IsInt(values[k])
    ensures position + |NumberArrayBytes(values)|
              <= CapacityAfter(length, position, (if wide then 21 else 12) * |values| + 2)
  {
    var width := if wide then 20 else 11;
    forall k | 0 <= k < |values|
      ensures |Decimal(values[k])| <= width
    {
      DecimalLength(values[k]);
    }
    JoinDecimalLength(values, width);
  }

  /** Three values of eleven bytes each do not fit the room `serialize(int[],
      sw)` reserves: a writer with 36 free bytes is not grown for them and
      the closing bracket falls outside the array. */
  lemma IntArrayRoomTooSmall(v: int)
    requires v == -1_000_000_000
    ensures IsInt(v)
    ensures var values := [v, v, v];
            !(0 + |NumberArrayBytes(values)| <= CapacityAfter(36, 0, 11 * |values| + 2))
  {
    var n := -v;
    DecimalDigitsShortest(n);
    DecimalDigitsAtMost(n, 10);
    if |DecimalDigits(n)| < 10 {
      Pow10Monotone(|DecimalDigits(n)|, 9);
    }
    assert |Decimal(v)| == 11;
    var values := [v, v, v];
    assert values[..2][..1] == [v] && values[..2] == [v, v];
    assert |JoinDecimal(values[..2])| == 23;
  }
}

/** The reading half of the older `NumberConverter`. The older reader's
    `readNumber()` hands over its character buffer with the token at
    indexes `0..len`; `int`, `long` and `BigDecimal` values are parsed from
    those characters without any overflow check, and whatever is not plain
    digits goes to the JDK's `BigDecimal` parser, a parameter here. */
module LegacyReading {
  import opened Java
  import opened DecimalText
  import opened NumberReading
  import opened NumberProperties
  import NumberConverter
  import opened DecimalCodec

  // ---------------------------------------------------------------------
  // The BigDecimal fallback

  /** `Character.isWhitespace`: the ASCII controls 9-13 and 28-31, the
      space, and the Unicode space, line and paragraph separators other
      than the non-breaking ones (U+00A0, U+2007, U+202F). */
  predicate JavaWhitespace(c: int) {
    9 <= c <= 13 || 28 <= c <= 32 || c == 0x1680 || 0x2000 <= c <= 0x2006
    || 0x2008 <= c <= 0x200A || c == 0x2028 || c == 0x2029 || c == 0x205F || c == 0x3000
  }

  /** The end of the token once trailing whitespace is dropped: everything
      from it to `end` is whitespace, and the character before it is not. */
  function TrimmedEnd(buf: seq<Char>, end: int): (r: int)
    requires 0 <= end <= |buf|
    ensures 0 <= r <= end
    ensures forall k | r <= k < end :: JavaWhitespace(buf[k])
    ensures r == 0 || !JavaWhitespace(buf[r - 1])
    decreases end
  {
    if end > 0 && JavaWhitespace(buf[end - 1]) then TrimmedEnd(buf, end - 1) else end
  }

  /** `parseNumberGeneric(buf, len, position)`: `new BigDecimal` over the
      token without its trailing whitespace. */
  function ParseGeneric(buf: seq<Char>, len: int, generic: Generic): Result<BigDec>
    requires 0 <= len <= |buf|
  {
    match generic(buf[..TrimmedEnd(buf, len)])
    case None => Err(IOError(PARSE_ERROR))
    case Some(d) => Ok(d)
  }

  /** The loop of `parseNumberGeneric`, proved to trim as `TrimmedEnd` says. */
  method ParseNumberGeneric(buf: array<Char>, len: int, generic: Generic) returns (r: Result<BigDec>)
    requires 0 <= len <= buf.Length
    ensures r == ParseGeneric(buf[..], len, generic)
    ensures r.Ok? <==> generic(buf[..TrimmedEnd(buf[..], len)]).Some?
  {
    var end := len;
    while end > 0 && JavaWhitespace(buf[end - 1])
      invariant 0 <= end <= len
      invariant TrimmedEnd(buf[..], len) == TrimmedEnd(buf[..], end)
      decreases end
    {
      end := end - 1;
    }
    match generic(buf[..end])
    case None =>
      r := Err(IOError(PARSE_ERROR));
    case Some(d) =>
      r := Ok(d);
  }

  /** `parseLongGeneric` (and its inline copy in the int parsers): a
      `BigDecimal` without a fractional scale gives its `intValue()` or
      `longValue()`, the low 32 or 64 bits; a positive scale is an error. */
  function IntegralFromGeneric(buf: seq<Char>, len: int, wide: bool, generic: Generic): (r: Result<int>)
    requires 0 <= len <= |buf|
    ensures r.Ok? ==> InRange(wide, r.value)
  {
    var d :- ParseGeneric(buf, len, generic);
    if d.scale <= 0 then Ok(Wrap(wide, Integral(d)))
    else Err(IOError(if wide then "Error parsing long number. Found decimal value" else "Error parsing int number. Found decimal value"))
  }

  /** `parseLongGeneric`, the method. */
  method ParseIntegralGeneric(buf: array<Char>, len: int, wide: bool, generic: Generic) returns (r: Result<int>)
    requires 0 <= len <= buf.Length
    ensures r == IntegralFromGeneric(buf[..], len, wide, generic)
  {
    var g := ParseNumberGeneric(buf, len, generic);
    if g.Err? {
      return Err(g.error);
    }
    if g.value.scale <= 0 {
      return Ok(Wrap(wide, Integral(g.value)));
    }
    return Err(IOError(if wide then "Error parsing long number. Found decimal value" else "Error parsing int number. Found decimal value"));
  }

  // ---------------------------------------------------------------------
  // int and long

  /** The loops of `parsePositiveInt`, `parseNegativeInt` and
      `deserializeLong` from index `i` with `value` read so far:
      `(value << 3) + (value << 1) + ind` is `10 * value + ind` in the
      integer's width, and nothing checks for overflow. A non-digit sends
      the whole token to the `BigDecimal` parser. */
  function DigitLoop(buf: seq<Char>, len: int, i: int, value: int, negative: bool, wide: bool, generic: Generic): (r: Result<int>)
    requires 0 <= len <= |buf| && 0 <= i && InRange(wide, value)
    ensures r.Ok? ==> InRange(wide, r.value)
    decreases len - i
  {
    if i >= len then Ok(value)
    else
      var ind := buf[i] - '0' as int;
      if ind < 0 || ind > 9 then IntegralFromGeneric(buf, len, wide, generic)
      else DigitLoop(buf, len, i + 1, Wrap(wide, if negative then value * 10 - ind else value * 10 + ind), negative, wide, generic)
  }

  /** `deserializeInt` (`wide` false) and `deserializeLong` (`wide` true):
      a `-` or a `+` at index 0 is a sign. */
  function ReadIntegral(buf: seq<Char>, len: int, wide: bool, generic: Generic): (r: Result<int>)
    requires 0 <= len <= |buf|
    ensures r.Ok? ==> InRange(wide, r.value)
  {
    if |buf| == 0 then Err(IndexOutOfBounds)
    else if buf[0] == MINUS then DigitLoop(buf, len, 1, 0, true, wide, generic)
    else if buf[0] == PLUS then DigitLoop(buf, len, 1, 0, false, wide, generic)
    else DigitLoop(buf, len, 0, 0, false, wide, generic)
  }

  /** `parsePositiveInt(buf, position, len, i)` and `parseNegativeInt`
      (`negative`), and with `wide` the loops of `deserializeLong`. */
  method ParseIntegral(buf: array<Char>, len: int, start: int, negative: bool, wide: bool, generic: Generic)
      returns (r: Result<int>)
    requires 0 <= len <= buf.Length && 0 <= start
    ensures r == DigitLoop(buf[..], len, start, 0, negative, wide, generic)
  {
    var value := 0;
    var i := start;
    while i < len
      invariant start <= i && InRange(wide, value)
      invariant DigitLoop(buf[..], len, start, 0, negative, wide, generic)
        == DigitLoop(buf[..], len, i, value, negative, wide, generic)
      decreases len - i
    {
      var ind := buf[i] - '0' as int;
      var next := Wrap(wide, if negative then value * 10 - ind else value * 10 + ind);
      if ind < 0 || ind > 9 {
        r := ParseIntegralGeneric(buf, len, wide, generic);
        return;
      }
      value := next;
      i := i + 1;
    }
    r := Ok(value);
  }

  /** `deserializeInt` and `deserializeLong`. */
  method DeserializeIntegral(buf: array<Char>, len: int, wide: bool, generic: Generic) returns (r: Result<int>)
    requires 0 <= len <= buf.Length
    ensures r == ReadIntegral(buf[..], len, wide, generic)
  {
    if buf.Length == 0 {
      return Err(IndexOutOfBounds);
    }
    var ch := buf[0];
    if ch == MINUS {
      r := ParseIntegral(buf, len, 1, true, wide, generic);
    } else if ch == PLUS {
      r := ParseIntegral(buf, len, 1, false, wide, generic);
    } else {
      r := ParseIntegral(buf, len, 0, false, wide, generic);
    }
  }

  // ---------------------------------------------------------------------
  // BigDecimal

  /** The exponent after the `e` or `E` at `i - 1`: an optional sign, then
      the int parsers from there. `buf[i]` is read even when `i` is the end
      of the token. */
  function Exponent(buf: seq<Char>, len: int, i: int, generic: Generic): (r: Result<int>)
    requires 0 <= len <= |buf| && 0 <= i
    ensures r.Ok? ==> IsInt(r.value)
  {
    if i >= |buf| then Err(IndexOutOfBounds)
    else if buf[i] == MINUS then DigitLoop(buf, len, i + 1, 0, true, false, generic)
    else if buf[i] == PLUS then DigitLoop(buf, len, i + 1, 0, false, false, generic)
    else DigitLoop(buf, len, i, 0, false, false, generic)
  }

  /** The fraction loop of `parsePositiveDecimal`/`parseNegativeDecimal`
      from `i`, the digits after the point starting at `dp`: at the end
      the scale is the number of fraction digits, after an exponent mark it
      is `ep - dp - exp` in `int` arithmetic. */
  function FractionDigits(buf: seq<Char>, len: int, i: int, dp: int, value: int, negative: bool, generic: Generic): Result<BigDec>
    requires 0 <= len <= |buf| && 0 <= dp <= i && IsLong(value)
    decreases len - i
  {
    if i >= len then Ok(BigDec(value, len - dp))
    else if IsExponentMark(buf[i]) then
      var exp :- Exponent(buf, len, i + 1, generic);
      Ok(BigDec(value, Int32(i - dp - exp)))
    else
      var ind := buf[i] - '0' as int;
      if ind < 0 || ind > 9 then ParseGeneric(buf, len, generic)
      else FractionDigits(buf, len, i + 1, dp, Int64(if negative then value * 10 - ind else value * 10 + ind), negative, generic)
  }

  /** The integer loop of `parsePositiveDecimal`/`parseNegativeDecimal`
      from `i`: scale 0 at the end, the fraction loop after a point, and
      scale `-exp` after an exponent mark. */
  function WholeDigits(buf: seq<Char>, len: int, i: int, value: int, negative: bool, generic: Generic): Result<BigDec>
    requires 0 <= len <= |buf| && 0 <= i && IsLong(value)
    decreases len - i
  {
    if i >= len then Ok(BigDec(value, 0))
    else if buf[i] == '.' as int then FractionDigits(buf, len, i + 1, i + 1, value, negative, generic)
    else if IsExponentMark(buf[i]) then
      var exp :- Exponent(buf, len, i + 1, generic);
      Ok(BigDec(value, Int32(-exp)))
    else
      var ind := buf[i] - '0' as int;
      if ind < 0 || ind > 9 then ParseGeneric(buf, len, generic)
      else WholeDigits(buf, len, i + 1, Int64(if negative then value * 10 - ind else value * 10 + ind), negative, generic)
  }

  /** `deserializeDecimal`: tokens longer than 18 characters go to the
      `BigDecimal` parser; shorter ones are read with an optional sign. */
  function ReadDecimal(buf: seq<Char>, len: int, generic: Generic): Result<BigDec>
    requires 0 <= len <= |buf|
  {
    if len > 18 then ParseGeneric(buf, len, generic)
    else if |buf| == 0 then Err(IndexOutOfBounds)
    else if buf[0] == MINUS then WholeDigits(buf, len, 1, 0, true, generic)
    else if buf[0] == PLUS then WholeDigits(buf, len, 1, 0, false, generic)
    else WholeDigits(buf, len, 0, 0, false, generic)
  }

  /** The exponent part of `parsePositiveDecimal`/`parseNegativeDecimal`. */
  method ParseExponent(buf: array<Char>, len: int, i: int, generic: Generic) returns (r: Result<int>)
    requires 0 <= len <= buf.Length && 0 <= i
    ensures r == Exponent(buf[..], len, i, generic)
  {
    if i >= buf.Length {
      return Err(IndexOutOfBounds);
    }
    var ch := buf[i];
    if ch == MINUS {
      r := ParseIntegral(buf, len, i + 1, true, false, generic);
    } else if ch == PLUS {
      r := ParseIntegral(buf, len, i + 1, false, false, generic);
    } else {
      r := ParseIntegral(buf, len, i, false, false, generic);
    }
  }

  /** The fraction loop and what follows it. */
  method ParseFraction(buf: array<Char>, len: int, dp: int, value0: int, negative: bool, generic: Generic)
      returns (r: Result<BigDec>)
    requires 0 <= dp <= len <= buf.Length && IsLong(value0)
    ensures r == FractionDigits(buf[..], len, dp, dp, value0, negative, generic)
  {
    var value := value0;
    var i := dp;
    while i < len
      invariant dp <= i <= len && IsLong(value)
      invariant FractionDigits(buf[..], len, dp, dp, value0, negative, generic)
        == FractionDigits(buf[..], len, i, dp, value, negative, generic)
      decreases len - i
    {
      var ch := buf[i];
      if IsExponentMark(ch) {
        break;
      }
      var ind := ch - '0' as int;
      var next := Int64(if negative then value * 10 - ind else value * 10 + ind);
      if ind < 0 || ind > 9 {
        r := ParseNumberGeneric(buf, len, generic);
        return;
      }
      value := next;
      i := i + 1;
    }
    if i == len {
      return Ok(BigDec(value, len - dp));
    }
    var ep := i;
    var exp := ParseExponent(buf, len, i + 1, generic);
    if exp.Err? {
      return Err(exp.error);
    }
    r := Ok(BigDec(value, Int32(ep - dp - exp.value)));
  }

  /** `parsePositiveDecimal(buf, position, len, i)` and
      `parseNegativeDecimal` (`negative`, from index 1). */
  method ParseDecimal(buf: array<Char>, len: int, start: int, negative: bool, generic: Generic) returns (r: Result<BigDec>)
    requires 0 <= len <= buf.Length && 0 <= start
    ensures r == WholeDigits(buf[..], len, start, 0, negative, generic)
  {
    var value := 0;
    var i := start;
    var ch := ' ' as int;
    while i < len
      invariant start <= i && IsLong(value)
      invariant ch != '.' as int && !IsExponentMark(ch)
      invariant WholeDigits(buf[..], len, start, 0, negative, generic)
        == WholeDigits(buf[..], len, i, value, negative, generic)
      decreases len - i
    {
      ch := buf[i];
      if ch == '.' as int || IsExponentMark(ch) {
        break;
      }
      var ind := ch - '0' as int;
      var next := Int64(if negative then value * 10 - ind else value * 10 + ind);
      if ind < 0 || ind > 9 {
        r := ParseNumberGeneric(buf, len, generic);
        return;
      }
      value := next;
      i := i + 1;
    }
    if i == len {
      return Ok(BigDec(value, 0));
    }
    if ch == '.' as int {
      r := ParseFraction(buf, len, i + 1, value, negative, generic);
      return;
    }
    if IsExponentMark(ch) {
      var exp := ParseExponent(buf, len, i + 1, generic);
      if exp.Err? {
        return Err(exp.error);
      }
      return Ok(BigDec(value, Int32(-exp.value)));
    }
    r := Ok(BigDec(value, 0));
  }

  /** `deserializeDecimal`. A token of more than 18 characters that fills
      the buffer is first extended from the stream by `readLongNumber`; with
      no stream attached that adds nothing. */
  method DeserializeDecimal(buf: array<Char>, len: int, generic: Generic) returns (r: Result<BigDec>)
    requires 0 <= len <= buf.Length
    ensures r == ReadDecimal(buf[..], len, generic)
  {
    if len > 18 {
      r := ParseNumberGeneric(buf, len, generic);
      return;
    }
    if buf.Length == 0 {
      return Err(IndexOutOfBounds);
    }
    var ch := buf[0];
    if ch == MINUS {
      r := ParseDecimal(buf, len, 1, true, generic);
    } else if ch == PLUS {
      r := ParseDecimal(buf, len, 1, false, generic);
    } else {
      r := ParseDecimal(buf, len, 0, false, generic);
    }
  }

  // ---------------------------------------------------------------------
  // No overflow check: the loops compute modulo 2^32 or 2^64

  /** The number of values of an `int` or a `long`. */
  function Modulus(wide: bool): int {
    if wide then 0x1_0000_0000_0000_0000 else 0x1_0000_0000
  }

  /** Adding a multiple of `m` does not change the remainder by `m`. */
  lemma ModShift(x: int, c: int, m: int)
    requires m >= 1
    ensures (x + c * m) % m == x % m
  {
    var q := x / m;
    assert x == q * m + x % m;
    assert x + c * m == (q + c) * m + x % m;
    DivModUnique(x + c * m, m, q + c, x % m);
  }

  /** Numbers that differ by a multiple of the modulus wrap to the same
      value. */
  lemma WrapCongruent(wide: bool, a: int, b: int, c: int)
    requires a - b == c * Modulus(wide)
    ensures Wrap(wide, a) == Wrap(wide, b)
  {
    if wide {
      ModShift(b - LONG_MIN, c, 0x1_0000_0000_0000_0000);
      assert a - LONG_MIN == b - LONG_MIN + c * 0x1_0000_0000_0000_0000;
    } else {
      ModShift(b - INT_MIN, c, 0x1_0000_0000);
      assert a - INT_MIN == b - INT_MIN + c * 0x1_0000_0000;
    }
  }

  /** A wrapped value differs from the exact one by a multiple of the
      modulus. */
  lemma WrapMultiple(wide: bool, x: int) returns (c: int)
    ensures Wrap(wide, x) - x == c * Modulus(wide)
  {
    var m := Modulus(wide);
    c := (Wrap(wide, x) - x) / m;
    assert (Wrap(wide, x) - x) % m == 0;
    assert Wrap(wide, x) - x == c * m + (Wrap(wide, x) - x) % m;
  }

  /** Reading digits after values that differ by `c * m` gives values that
      differ by a multiple of `m`. */
  lemma AccumulateCongruent(a: int, b: int, s: seq<int>, c: int, m: int)
    requires a - b == c * m
    ensures Accumulate(a, s) - Accumulate(b, s) == (c * Pow10(|s|)) * m
  {
    AccumulateFrom(a, s);
    AccumulateFrom(b, s);
    var p := Pow10(|s|);
    assert a * p - b * p == (a - b) * p;
    assert (c * m) * p == (c * p) * m;
  }

  /** The first digit of a run of digits. */
  lemma CharRunTail(buf: seq<Char>, i: int, j: int, a: int)
    requires 0 <= i < j <= |buf| && AllDigits(buf[i..j])
    ensures IsDigit(buf[i]) && AllDigits(buf[i + 1..j])
    ensures Accumulate(a, buf[i..j]) == Accumulate(a * 10 + buf[i] - '0' as int, buf[i + 1..j])
  {
    var rest := buf[i..j];
    assert rest[0] == buf[i] && rest[1..] == buf[i + 1..j];
    assert forall k | i + 1 <= k < j :: buf[k] == rest[k - i];
  }

  /** The int and long loops over digits compute the exact value of the
      digits, with the sign, and keep only its low 32 or 64 bits: no
      overflow is detected. */
  lemma {:induction false} DigitLoopWraps(buf: seq<Char>, len: int, i: int, value: int,
                                          negative: bool, wide: bool, generic: Generic)
    requires 0 <= i <= len <= |buf| && AllDigits(buf[i..len]) && InRange(wide, value)
    ensures DigitLoop(buf, len, i, value, negative, wide, generic)
      == Ok(Wrap(wide, Signed(negative, Accumulate(Signed(negative, value), buf[i..len]))))
    decreases len - i
  {
    if i < len {
      var ind := buf[i] - '0' as int;
      CharRunTail(buf, i, len, Signed(negative, value));
      var next := Wrap(wide, if negative then value * 10 - ind else value * 10 + ind);
      assert DigitLoop(buf, len, i, value, negative, wide, generic) == DigitLoop(buf, len, i + 1, next, negative, wide, generic);
      DigitLoopWraps(buf, len, i + 1, next, negative, wide, generic);
      WrapStep(wide, negative, value, ind, buf[i + 1..len]);
    }
  }

  /** One digit of the loops: wrapping the value after it does not change
      what the remaining digits wrap to. */
  lemma WrapStep(wide: bool, negative: bool, value: int, ind: int, rest: seq<int>)
    ensures var x := if negative then value * 10 - ind else value * 10 + ind;
      Wrap(wide, Signed(negative, Accumulate(Signed(negative, Wrap(wide, x)), rest)))
      == Wrap(wide, Signed(negative, Accumulate(Signed(negative, value) * 10 + ind, rest)))
  {
    var x := if negative then value * 10 - ind else value * 10 + ind;
    var next := Wrap(wide, x);
    var c := WrapMultiple(wide, x);
    assert Signed(negative, x) == Signed(negative, value) * 10 + ind;
    assert Signed(negative, next) - Signed(negative, x) == Signed(negative, c) * Modulus(wide);
    AccumulateCongruent(Signed(negative, next), Signed(negative, x), rest, Signed(negative, c), Modulus(wide));
    var d := Signed(negative, c) * Pow10(|rest|);
    WrapCongruent(wide, Signed(negative, Accumulate(Signed(negative, next), rest)),
      Signed(negative, Accumulate(Signed(negative, x), rest)), Signed(negative, d));
  }

  /** Round trip: what `serialize(int)` or `serialize(long)` writes, read
      back by `deserializeInt` or `deserializeLong`, is the same value. */
  lemma IntegralRoundTrip(buf: seq<Char>, len: int, v: int, wide: bool, generic: Generic)
    requires InRange(wide, v) && len == |Decimal(v)| <= |buf| && buf[..len] == Decimal(v)
    ensures ReadIntegral(buf, len, wide, generic) == Ok(v)
  {
    var m := if v < 0 then -v else v;
    var i := if v < 0 then 1 else 0;
    DecimalDigitsValue(m);
    assert buf[i..len] == DecimalDigits(m) by {
      assert buf[i..len] == buf[..len][i..];
    }
    assert buf[0] == Decimal(v)[0];
    DigitLoopWraps(buf, len, i, 0, v < 0, wide, generic);
  }

  /** No overflow check: `2147483648`, one more than `Integer.MAX_VALUE`,
      is read by `deserializeInt` as `Integer.MIN_VALUE`. */
  lemma IntWrapsSilently(buf: seq<Char>, generic: Generic)
    requires 10 <= |buf| && buf[..10] == NumberConverter.MIN_INT[1..]
    ensures ReadIntegral(buf, 10, false, generic) == Ok(INT_MIN)
  {
    NumberConverter.MinIntText(INT_MIN);
    DecimalDigitsValue(-INT_MIN);
    assert buf[0..10] == DecimalDigits(-INT_MIN) by {
      assert buf[0..10] == buf[..10];
    }
    DigitLoopWraps(buf, 10, 0, 0, false, false, generic);
  }

  /** Digits before the point whose value fits a `long` are accumulated
      exactly. */
  lemma {:induction false} WholeRun(buf: seq<Char>, len: int, i: int, j: int, a: int, negative: bool, generic: Generic)
    requires 0 <= i <= j <= len <= |buf| && 0 <= a
    requires AllDigits(buf[i..j]) && 0 <= Accumulate(a, buf[i..j]) <= LONG_MAX
    ensures IsLong(Signed(negative, a))
    ensures WholeDigits(buf, len, i, Signed(negative, a), negative, generic)
         == WholeDigits(buf, len, j, Signed(negative, Accumulate(a, buf[i..j])), negative, generic)
    decreases j - i
  {
    AccumulateAtLeast(a, buf[i..j]);
    if i < j {
      var next := a * 10 + buf[i] - '0' as int;
      CharRunTail(buf, i, j, a);
      AccumulateAtLeast(next, buf[i + 1..j]);
      WholeRun(buf, len, i + 1, j, next, negative, generic);
      WholeStep(buf, len, i, a, negative, generic);
    } else {
      assert buf[i..j] == [];
    }
  }

  /** One digit before the point, when the value still fits a `long`. */
  lemma WholeStep(buf: seq<Char>, len: int, i: int, a: int, negative: bool, generic: Generic)
    requires 0 <= i < len <= |buf| && 0 <= a && IsDigit(buf[i]) && a * 10 + buf[i] - '0' as int <= LONG_MAX
    ensures IsLong(Signed(negative, a)) && IsLong(Signed(negative, a * 10 + buf[i] - '0' as int))
    ensures WholeDigits(buf, len, i, Signed(negative, a), negative, generic)
         == WholeDigits(buf, len, i + 1, Signed(negative, a * 10 + buf[i] - '0' as int), negative, generic)
  {
  }

  /** Digits after the point whose value, with those before it, fits a
      `long` are accumulated exactly. */
  lemma {:induction false} FractionRun(buf: seq<Char>, len: int, dp: int, i: int, j: int, a: int,
                                       negative: bool, generic: Generic)
    requires 0 <= dp <= i <= j <= len <= |buf| && 0 <= a
    requires AllDigits(buf[i..j]) && 0 <= Accumulate(a, buf[i..j]) <= LONG_MAX
    ensures IsLong(Signed(negative, a))
    ensures FractionDigits(buf, len, i, dp, Signed(negative, a), negative, generic)
         == FractionDigits(buf, len, j, dp, Signed(negative, Accumulate(a, buf[i..j])), negative, generic)
    decreases j - i
  {
    AccumulateAtLeast(a, buf[i..j]);
    if i < j {
      var next := a * 10 + buf[i] - '0' as int;
      CharRunTail(buf, i, j, a);
      AccumulateAtLeast(next, buf[i + 1..j]);
      FractionRun(buf, len, dp, i + 1, j, next, negative, generic);
      FractionStep(buf, len, dp, i, a, negative, generic);
    } else {
      assert buf[i..j] == [];
    }
  }

  /** One digit after the point, when the value still fits a `long`. */
  lemma FractionStep(buf: seq<Char>, len: int, dp: int, i: int, a: int, negative: bool, generic: Generic)
    requires 0 <= dp <= i < len <= |buf| && 0 <= a && IsDigit(buf[i]) && a * 10 + buf[i] - '0' as int <= LONG_MAX
    ensures IsLong(Signed(negative, a)) && IsLong(Signed(negative, a * 10 + buf[i] - '0' as int))
    ensures FractionDigits(buf, len, i, dp, Signed(negative, a), negative, generic)
         == FractionDigits(buf, len, i + 1, dp, Signed(negative, a * 10 + buf[i] - '0' as int), negative, generic)
  {
  }

  /** Where the parts of a plain decimal lie in a buffer that starts with
      it. */
  lemma PlainLayout(buf: seq<Char>, negative: bool, whole: seq<Byte>, fraction: seq<Byte>)
    requires var t := PlainDecimal(negative, whole, fraction); |t| <= |buf| && buf[..|t|] == t
    ensures var i := if negative then 1 else 0;
      var dot := i + |whole|;
      && buf[i..dot] == whole && buf[dot] == '.' as int
      && buf[dot + 1..|PlainDecimal(negative, whole, fraction)|] == fraction
      && (negative ==> buf[0] == MINUS)
      && (!negative ==> buf[0] == if whole == [] then '.' as int else whole[0])
  {
    var t := PlainDecimal(negative, whole, fraction);
    var i := if negative then 1 else 0;
    PlainDecimalParts(negative, whole, fraction);
    assert buf[i..i + |whole|] == t[i..i + |whole|];
    assert buf[i + |whole| + 1..|t|] == t[i + |whole| + 1..];
    assert buf[0] == t[0];
    if !negative && whole != [] {
      assert t[0] == t[0..|whole|][0];
    }
  }

  /** `deserializeDecimal` of a plain decimal of at most 18 characters:
      the digits on both sides of the point as the unscaled value, the
      number of digits after it as the scale. */
  lemma ReadPlainDecimal(buf: seq<Char>, negative: bool, whole: seq<Byte>, fraction: seq<Byte>, generic: Generic)
    requires AllDigits(whole) && AllDigits(fraction)
    requires var t := PlainDecimal(negative, whole, fraction); |t| <= 18 && |t| <= |buf| && buf[..|t|] == t
    ensures ReadDecimal(buf, |PlainDecimal(negative, whole, fraction)|, generic)
         == Ok(BigDec(Signed(negative, DigitsValue(whole + fraction)), |fraction|))
  {
    var len := |PlainDecimal(negative, whole, fraction)|;
    var i := if negative then 1 else 0;
    var dot := i + |whole|;
    PlainLayout(buf, negative, whole, fraction);
    PlainDecimalParts(negative, whole, fraction);
    assert AllDigits(whole + fraction);
    ShortDigitsFit(whole + fraction);
    AccumulateAppend(0, whole, fraction);
    AccumulateAtLeast(0, whole);
    AccumulateAtLeast(DigitsValue(whole), fraction);
    WholeRun(buf, len, i, dot, 0, negative, generic);
    FractionRun(buf, len, dot + 1, dot + 1, len, DigitsValue(whole), negative, generic);
  }

  // ---------------------------------------------------------------------
  // Round trip of `serialize(BigDecimal)`

  /** The exponent as `BigDecimal.toString()` writes it after the `E`: a
      `+` before a positive one. */
  function ExponentText(x: int): (r: seq<Byte>)
    ensures |r| >= 1
  {
    (if x > 0 then [PLUS] else []) + Decimal(x)
  }

  /** The exponent parser reads the exponent text back, as an `int`. */
  lemma ExponentValue(buf: seq<Char>, len: int, i: int, x: int, generic: Generic)
    requires 0 <= i && i + |ExponentText(x)| == len <= |buf| && buf[i..len] == ExponentText(x)
    ensures Exponent(buf, len, i, generic) == Ok(Int32(x))
  {
    var m := if x < 0 then -x else x;
    var j := ExponentDigitsAt(buf, len, i, x, generic);
    DecimalDigitsValue(m);
    DigitLoopWraps(buf, len, j, 0, x < 0, false, generic);
    assert Signed(x < 0, Accumulate(Signed(x < 0, 0), buf[j..len])) == x;
  }

  /** The exponent parser skips the sign of the exponent text, and the
      digits of its magnitude follow. */
  lemma ExponentDigitsAt(buf: seq<Char>, len: int, i: int, x: int, generic: Generic) returns (j: int)
    requires 0 <= i && i + |ExponentText(x)| == len <= |buf| && buf[i..len] == ExponentText(x)
    ensures i <= j <= len && buf[j..len] == DecimalDigits(if x < 0 then -x else x)
    ensures Exponent(buf, len, i, generic) == DigitLoop(buf, len, j, 0, x < 0, false, generic)
  {
    var text := buf[i..len];
    assert buf[i] == text[0];
    if x > 0 {
      j := i + 1;
      assert text == [PLUS] + DecimalDigits(x);
    } else if x < 0 {
      j := i + 1;
      assert text == [MINUS] + DecimalDigits(-x);
    } else {
      j := i;
      assert text == [DigitByte(0)];
    }
    assert buf[j..len] == text[j - i..];
  }

  /** Taking an `int` of a subtrahend first does not change an `int`
      difference. */
  lemma Int32Difference(k: int, x: int)
    ensures Int32(k - Int32(x)) == Int32(k - x)
  {
    var c := WrapMultiple(false, x);
    WrapCongruent(false, k - Int32(x), k - x, -c);
  }

  /** An exponent mark ends the digits before the point: scale `-exp`. */
  lemma WholeAtExponent(buf: seq<Char>, len: int, i: int, v: int, x: int, negative: bool, generic: Generic)
    requires 0 <= i && i + 1 + |ExponentText(x)| == len <= |buf| && IsLong(v)
    requires buf[i] == 'E' as int && buf[i + 1..len] == ExponentText(x)
    ensures WholeDigits(buf, len, i, v, negative, generic) == Ok(BigDec(v, Int32(-x)))
  {
    ExponentValue(buf, len, i + 1, x, generic);
    assert WholeDigits(buf, len, i, v, negative, generic) == Ok(BigDec(v, Int32(-Int32(x))));
    Int32Difference(0, x);
  }

  /** An exponent mark ends the digits after the point that start at
      `dp`: scale `ep - dp - exp`. */
  lemma FractionAtExponent(buf: seq<Char>, len: int, ep: int, dp: int, v: int, x: int, negative: bool, generic: Generic)
    requires 0 <= dp <= ep && ep + 1 + |ExponentText(x)| == len <= |buf| && IsLong(v)
    requires buf[ep] == 'E' as int && buf[ep + 1..len] == ExponentText(x)
    ensures FractionDigits(buf, len, ep, dp, v, negative, generic) == Ok(BigDec(v, Int32(ep - dp - x)))
  {
    ExponentValue(buf, len, ep + 1, x, generic);
    FractionAtMark(buf, len, ep, dp, v, Int32(x), negative, generic);
    Int32Difference(ep - dp, x);
  }

  /** At an exponent mark the fraction loop ends with the exponent read
      after it. */
  lemma FractionAtMark(buf: seq<Char>, len: int, ep: int, dp: int, v: int, e: int, negative: bool, generic: Generic)
    requires 0 <= dp <= ep < len <= |buf| && IsLong(v) && IsExponentMark(buf[ep])
    requires Exponent(buf, len, ep + 1, generic) == Ok(e)
    ensures FractionDigits(buf, len, ep, dp, v, negative, generic) == Ok(BigDec(v, Int32(ep - dp - e)))
  {
  }

  /** A token of at most 18 characters starting with a minus or a digit
      goes to the loop before the point, after the minus. */
  lemma ReadDecimalStart(buf: seq<Char>, len: int, negative: bool, generic: Generic)
    requires 1 <= len <= 18 && len <= |buf|
    requires if negative then buf[0] == MINUS else IsDigit(buf[0])
    ensures ReadDecimal(buf, len, generic) == WholeDigits(buf, len, if negative then 1 else 0, Signed(negative, 0), negative, generic)
  {
  }

  /** The scientific form of a coefficient with one digit. */
  function BareScientific(negative: bool, coeff: seq<Byte>, x: int): seq<Byte> {
    (if negative then [MINUS] else []) + coeff + ['E' as int] + ExponentText(x)
  }

  /** `deserializeDecimal` of a one-digit coefficient and an exponent:
      scale `-exp`. */
  lemma ReadBareScientific(buf: seq<Char>, negative: bool, coeff: seq<Byte>, x: int, generic: Generic)
    requires |coeff| == 1 && AllDigits(coeff)
    requires var t := BareScientific(negative, coeff, x); |t| <= 18 && |t| <= |buf| && buf[..|t|] == t
    ensures ReadDecimal(buf, |BareScientific(negative, coeff, x)|, generic)
         == Ok(BigDec(Signed(negative, DigitsValue(coeff)), Int32(-x)))
  {
    var t := BareScientific(negative, coeff, x);
    var sign: seq<Byte> := if negative then [MINUS] else [];
    var len, i := |t|, |sign|;
    assert t == sign + coeff + (['E' as int] + ExponentText(x));
    assert buf[i..i + 1] == coeff by { assert buf[i..i + 1] == t[i..i + 1]; }
    assert buf[i + 1] == 'E' as int by { assert buf[i + 1] == t[i + 1]; }
    assert buf[i + 2..len] == ExponentText(x) by { assert buf[i + 2..len] == t[i + 2..]; }
    assert buf[0] == t[0];
    ReadDecimalStart(buf, len, negative, generic);
    ShortDigitsFit(coeff);
    WholeRun(buf, len, i, i + 1, 0, negative, generic);
    WholeAtExponent(buf, len, i + 1, Signed(negative, DigitsValue(coeff)), x, negative, generic);
  }

  /** The scientific form of a coefficient with more than one digit: a
      point after its first digit. */
  function PointScientific(negative: bool, coeff: seq<Byte>, x: int): seq<Byte>
    requires |coeff| >= 1
  {
    PlainDecimal(negative, coeff[..1], coeff[1..]) + ['E' as int] + ExponentText(x)
  }

  /** The values of the digits around the point of the scientific form. */
  lemma PointDigits(buf: seq<Char>, i: int, ep: int, coeff: seq<Byte>)
    requires 0 <= i && i + 2 <= ep <= |buf| && |coeff| <= 18 && AllDigits(coeff)
    requires 1 <= |coeff| && buf[i..i + 1] == coeff[..1] && buf[i + 2..ep] == coeff[1..]
    ensures AllDigits(buf[i..i + 1]) && AllDigits(buf[i + 2..ep])
    ensures Accumulate(0, buf[i..i + 1]) == DigitsValue(coeff[..1])
    ensures 0 <= DigitsValue(coeff[..1]) <= DigitsValue(coeff) <= LONG_MAX
    ensures Accumulate(DigitsValue(coeff[..1]), buf[i + 2..ep]) == DigitsValue(coeff)
  {
    var whole, fraction := coeff[..1], coeff[1..];
    assert whole + fraction == coeff;
    ShortDigitsFit(coeff);
    AccumulateAppend(0, whole, fraction);
    AccumulateAtLeast(0, whole);
    AccumulateAtLeast(DigitsValue(whole), fraction);
  }

  /** Where the parts of the scientific form lie in a buffer that starts
      with it. */
  lemma PointScientificLayout(buf: seq<Char>, negative: bool, coeff: seq<Byte>, x: int)
    requires |coeff| >= 1 && AllDigits(coeff)
    requires var t := PointScientific(negative, coeff, x); |t| <= |buf| && buf[..|t|] == t
    ensures var i := if negative then 1 else 0;
      var ep := i + 1 + |coeff|;
      && |PointScientific(negative, coeff, x)| == ep + 1 + |ExponentText(x)|
      && buf[i..i + 1] == coeff[..1] && buf[i + 1] == '.' as int && buf[i + 2..ep] == coeff[1..]
      && buf[ep] == 'E' as int && buf[ep + 1..ep + 1 + |ExponentText(x)|] == ExponentText(x)
      && (if negative then buf[0] == MINUS else IsDigit(buf[0]))
  {
    var whole, fraction := coeff[..1], coeff[1..];
    var plain := PlainDecimal(negative, whole, fraction);
    ExponentAfter(buf, plain, ExponentText(x));
    PlainLayout(buf, negative, whole, fraction);
    PlainDecimalParts(negative, whole, fraction);
  }

  /** A buffer that starts with `head`, `E` and `tail` holds each where it
      belongs. */
  lemma ExponentAfter(buf: seq<Char>, head: seq<Byte>, tail: seq<Byte>)
    requires var t := head + ['E' as int] + tail; |t| <= |buf| && buf[..|t|] == t
    ensures buf[..|head|] == head && buf[|head|] == 'E' as int
    ensures buf[|head| + 1..|head| + 1 + |tail|] == tail
  {
    var t := head + ['E' as int] + tail;
    assert buf[..|head|] == t[..|head|];
    assert buf[|head|] == t[|head|];
    assert buf[|head| + 1..|head| + 1 + |tail|] == t[|head| + 1..];
  }

  /** `deserializeDecimal` of a coefficient with a point after its first
      digit and an exponent: scale `ep - dp - exp`, the number of digits
      after the point less the exponent. */
  lemma ReadPointScientific(buf: seq<Char>, negative: bool, coeff: seq<Byte>, x: int, generic: Generic)
    requires |coeff| >= 1 && AllDigits(coeff)
    requires var t := PointScientific(negative, coeff, x); |t| <= 18 && |t| <= |buf| && buf[..|t|] == t
    ensures ReadDecimal(buf, |PointScientific(negative, coeff, x)|, generic)
         == Ok(BigDec(Signed(negative, DigitsValue(coeff)), Int32(|coeff| - 1 - x)))
  {
    var i := if negative then 1 else 0;
    PointScientificLayout(buf, negative, coeff, x);
    ReadPointParts(buf, |PointScientific(negative, coeff, x)|, i, i + 1 + |coeff|, negative, coeff, x, generic);
  }

  /** `ReadPointScientific` over the parts of the token. */
  lemma ReadPointParts(buf: seq<Char>, len: int, i: int, ep: int, negative: bool, coeff: seq<Byte>, x: int, generic: Generic)
    requires |coeff| >= 1 && AllDigits(coeff) && i == (if negative then 1 else 0) && ep == i + 1 + |coeff|
    requires len == ep + 1 + |ExponentText(x)| <= 18 && len <= |buf|
    requires buf[i..i + 1] == coeff[..1] && buf[i + 1] == '.' as int && buf[i + 2..ep] == coeff[1..]
    requires buf[ep] == 'E' as int && buf[ep + 1..len] == ExponentText(x)
    requires if negative then buf[0] == MINUS else IsDigit(buf[0])
    ensures ReadDecimal(buf, len, generic) == Ok(BigDec(Signed(negative, DigitsValue(coeff)), Int32(|coeff| - 1 - x)))
  {
    PointDigits(buf, i, ep, coeff);
    PointWhole(buf, len, i, negative, Signed(negative, DigitsValue(coeff[..1])), generic);
    PointFraction(buf, len, i, ep, negative, coeff, x, generic);
  }

  /** The fraction loop from just after the point reads the digits after
      it, then the exponent. */
  lemma PointFraction(buf: seq<Char>, len: int, i: int, ep: int, negative: bool, coeff: seq<Byte>, x: int, generic: Generic)
    requires |coeff| >= 1 && AllDigits(coeff) && 0 <= i && ep == i + 1 + |coeff|
    requires len == ep + 1 + |ExponentText(x)| <= 18 && len <= |buf|
    requires buf[i..i + 1] == coeff[..1] && buf[i + 2..ep] == coeff[1..]
    requires buf[ep] == 'E' as int && buf[ep + 1..len] == ExponentText(x)
    ensures IsLong(Signed(negative, DigitsValue(coeff[..1])))
    ensures FractionDigits(buf, len, i + 2, i + 2, Signed(negative, DigitsValue(coeff[..1])), negative, generic)
         == Ok(BigDec(Signed(negative, DigitsValue(coeff)), Int32(|coeff| - 1 - x)))
  {
    PointDigits(buf, i, ep, coeff);
    FractionToExponent(buf, len, i + 2, ep, DigitsValue(coeff[..1]), negative, x, generic);
    assert ep - (i + 2) - x == |coeff| - 1 - x;
  }

  /** The fraction loop runs over the digits up to the exponent mark, then
      reads the exponent. */
  lemma FractionToExponent(buf: seq<Char>, len: int, dp: int, ep: int, a: int, negative: bool, x: int, generic: Generic)
    requires 0 <= dp <= ep && ep + 1 + |ExponentText(x)| == len <= |buf| && 0 <= a
    requires AllDigits(buf[dp..ep]) && 0 <= Accumulate(a, buf[dp..ep]) <= LONG_MAX
    requires buf[ep] == 'E' as int && buf[ep + 1..len] == ExponentText(x)
    ensures IsLong(Signed(negative, a))
    ensures FractionDigits(buf, len, dp, dp, Signed(negative, a), negative, generic)
         == Ok(BigDec(Signed(negative, Accumulate(a, buf[dp..ep])), Int32(ep - dp - x)))
  {
    FractionRun(buf, len, dp, dp, ep, a, negative, generic);
    FractionAtExponent(buf, len, ep, dp, Signed(negative, Accumulate(a, buf[dp..ep])), x, negative, generic);
  }

  /** The digit before the point is read, then the point: the fraction
      loop starts after it with that digit's value. */
  lemma PointWhole(buf: seq<Char>, len: int, i: int, negative: bool, w: int, generic: Generic)
    requires 1 <= len <= 18 && len <= |buf| && i == (if negative then 1 else 0) && i + 2 < len
    requires if negative then buf[0] == MINUS else IsDigit(buf[0])
    requires AllDigits(buf[i..i + 1]) && buf[i + 1] == '.' as int && w == Signed(negative, Accumulate(0, buf[i..i + 1]))
    ensures IsLong(w) && ReadDecimal(buf, len, generic) == FractionDigits(buf, len, i + 2, i + 2, w, negative, generic)
  {
    ReadDecimalStart(buf, len, negative, generic);
    WholeRun(buf, len, i, i + 1, 0, negative, generic);
  }

  /** `deserializeDecimal` of an integer of at most 18 characters: the
      value with scale 0. */
  lemma ReadIntegerDecimal(buf: seq<Char>, u: int, generic: Generic)
    requires |Decimal(u)| <= 18 && |Decimal(u)| <= |buf| && buf[..|Decimal(u)|] == Decimal(u)
    ensures ReadDecimal(buf, |Decimal(u)|, generic) == Ok(BigDec(u, 0))
  {
    var m := if u < 0 then -u else u;
    var i, len := if u < 0 then 1 else 0, |Decimal(u)|;
    DecimalDigitsValue(m);
    assert buf[i..len] == DecimalDigits(m) by {
      assert buf[i..len] == buf[..len][i..];
    }
    assert buf[0] == Decimal(u)[0];
    ShortDigitsFit(DecimalDigits(m));
    ReadDecimalStart(buf, len, u < 0, generic);
    WholeRun(buf, len, i, len, 0, u < 0, generic);
  }

  /** The coefficient in scientific notation: its first digit, and the
      others after a point. */
  function ScientificLead(d: BigDec): seq<Byte> {
    var coeff := DecimalDigits(Abs(d.unscaled));
    (if d.unscaled < 0 then [MINUS] else []) + coeff[..1] + (if |coeff| > 1 then ['.' as int] + coeff[1..] else [])
  }

  /** The scientific form of `toString()` and its non-zero exponent. */
  lemma ScientificString(d: BigDec)
    requires d.scale < 0 || (d.scale > 0 && Adjusted(d) < -6)
    ensures Adjusted(d) != 0 && DecimalString(d) == ScientificLead(d) + (['E' as int] + ExponentText(Adjusted(d)))
  {
    var adjusted := Adjusted(d);
    var plus: seq<Byte> := if adjusted > 0 then [PLUS] else [];
    var exponent := ['E' as int] + plus + Decimal(adjusted);
    assert adjusted != 0 && d.scale != 0 && !(d.scale > 0 && adjusted >= -6);
    assert DecimalString(d) == ScientificLead(d) + exponent;
    assert exponent == ['E' as int] + ExponentText(adjusted);
  }

  /** The scientific forms of `toString()`: the coefficient's first digit,
      the others after a point, and a non-zero exponent. */
  lemma ScientificForm(d: BigDec)
    requires d.scale < 0 || (d.scale > 0 && Adjusted(d) < -6)
    ensures var coeff := DecimalDigits(Abs(d.unscaled));
      && Adjusted(d) != 0
      && DecimalString(d) == if |coeff| == 1 then BareScientific(d.unscaled < 0, coeff, Adjusted(d))
                             else PointScientific(d.unscaled < 0, coeff, Adjusted(d))
  {
    var coeff := DecimalDigits(Abs(d.unscaled));
    var e := ExponentText(Adjusted(d));
    var lead := ScientificLead(d);
    ScientificString(d);
    assert lead + ['E' as int] + e == lead + (['E' as int] + e);
    if |coeff| == 1 {
      assert lead == (if d.unscaled < 0 then [MINUS] else []) + coeff;
    } else {
      assert PlainDecimal(d.unscaled < 0, coeff[..1], coeff[1..]) == lead;
    }
  }

  /** Round trip: what `serialize(BigDecimal)` writes, up to the 18
      characters `deserializeDecimal` parses itself, is read back with the
      same unscaled value and scale, in plain and in scientific notation. */
  lemma ToStringRoundTrip(buf: seq<Char>, d: BigDec, generic: Generic)
    requires IsInt(d.scale)
    requires |DecimalString(d)| <= 18 && |DecimalString(d)| <= |buf| && buf[..|DecimalString(d)|] == DecimalString(d)
    ensures ReadDecimal(buf, |DecimalString(d)|, generic) == Ok(d)
  {
    if d.scale == 0 {
      IntegerForm(d);
      ReadIntegerDecimal(buf, d.unscaled, generic);
    } else if d.scale > 0 && Adjusted(d) >= -6 {
      PlainRoundTrip(buf, d, generic);
    } else {
      ScientificRoundTrip(buf, d, generic);
    }
  }

  /** `ToStringRoundTrip` in plain notation. */
  lemma PlainRoundTrip(buf: seq<Char>, d: BigDec, generic: Generic)
    requires d.scale > 0 && Adjusted(d) >= -6
    requires |DecimalString(d)| <= 18 && |DecimalString(d)| <= |buf| && buf[..|DecimalString(d)|] == DecimalString(d)
    ensures ReadDecimal(buf, |DecimalString(d)|, generic) == Ok(d)
  {
    PlainForm(d);
    var whole, fraction := PlainWhole(d), PlainFraction(d);
    ReadPlainDecimal(buf, d.unscaled < 0, whole, fraction, generic);
    assert Signed(d.unscaled < 0, DigitsValue(whole + fraction)) == d.unscaled;
  }

  /** `ToStringRoundTrip` in scientific notation. */
  lemma ScientificRoundTrip(buf: seq<Char>, d: BigDec, generic: Generic)
    requires IsInt(d.scale) && (d.scale < 0 || (d.scale > 0 && Adjusted(d) < -6))
    requires |DecimalString(d)| <= 18 && |DecimalString(d)| <= |buf| && buf[..|DecimalString(d)|] == DecimalString(d)
    ensures ReadDecimal(buf, |DecimalString(d)|, generic) == Ok(d)
  {
    var coeff := DecimalDigits(Abs(d.unscaled));
    var x := Adjusted(d);
    DecimalDigitsValue(Abs(d.unscaled));
    ScientificForm(d);
    assert Signed(d.unscaled < 0, DigitsValue(coeff)) == d.unscaled;
    assert |coeff| - 1 - x == d.scale;
    if |coeff| == 1 {
      ReadBareScientific(buf, d.unscaled < 0, coeff, x, generic);
    } else {
      ReadPointScientific(buf, d.unscaled < 0, coeff, x, generic);
    }
  }

  // ---------------------------------------------------------------------
  // Whitespace after an exponent

  /** `deserializeDecimal` as written, on `1e5` followed by a space: the
      exponent loop stops at the space and hands the whole token to the
      `BigDecimal` parser, whose value `100000` becomes the exponent. */
  lemma TrailingSpaceExponent(buf: seq<Char>, generic: Generic)
    requires buf == ['1' as int, 'e' as int, '5' as int, ' ' as int]
    requires generic(['1' as int, 'e' as int, '5' as int]) == Some(BigDec(1, -5))
    ensures ReadDecimal(buf, 4, generic) == Ok(BigDec(1, -100000))
  {
    assert TrimmedEnd(buf, 4) == 3 by {
      assert JavaWhitespace(buf[3]) && !JavaWhitespace(buf[2]);
    }
    assert buf[..3] == ['1' as int, 'e' as int, '5' as int];
    assert Pow10(5) == 100000 by {
      assert Pow10(2) == 100;
    }
    assert IntegralFromGeneric(buf, 4, false, generic) == Ok(100000);
    assert DigitLoop(buf, 4, 2, 0, false, false, generic) == Ok(100000);
    assert WholeDigits(buf, 4, 1, 1, false, generic) == Ok(BigDec(1, -100000));
  }

  /** `deserializeDecimal` with the token's trailing whitespace dropped
      first, as `parseNumberGeneric` drops it: the exponent then ends where
      the number does. */
  function ReadDecimalTrimmed(buf: seq<Char>, len: int, generic: Generic): Result<BigDec>
    requires 0 <= len <= |buf|
  {
    ReadDecimal(buf, TrimmedEnd(buf, len), generic)
  }

  /** Where the trailing whitespace starts is determined by the text. */
  lemma TrimmedEndAt(buf: seq<Char>, m: int, end: int)
    requires 0 <= m <= end <= |buf| && (forall k | m <= k < end :: JavaWhitespace(buf[k]))
    requires m == 0 || !JavaWhitespace(buf[m - 1])
    ensures TrimmedEnd(buf, end) == m
  {
  }

  /** The decimal form of an integer ends in a digit. */
  lemma DecimalEndsInDigit(x: int)
    ensures IsDigit(Decimal(x)[|Decimal(x)| - 1])
  {
    var m := if x < 0 then -x else x;
    var digits := DecimalDigits(m);
    assert Decimal(x)[|Decimal(x)| - 1] == digits[|digits| - 1];
  }

  /** `toString()` of a `BigDecimal` ends in a digit. */
  lemma ToStringEndsInDigit(d: BigDec)
    ensures IsDigit(DecimalString(d)[|DecimalString(d)| - 1])
  {
    var t := DecimalString(d);
    if d.scale == 0 {
      IntegerForm(d);
      DecimalEndsInDigit(d.unscaled);
    } else if d.scale > 0 && Adjusted(d) >= -6 {
      PlainForm(d);
      var fraction := PlainFraction(d);
      assert t == PlainDecimal(d.unscaled < 0, PlainWhole(d), PlainFraction(d));
      assert t[|t| - 1] == fraction[|fraction| - 1];
    } else {
      ScientificString(d);
      var x := Adjusted(d);
      DecimalEndsInDigit(x);
      assert t[|t| - 1] == Decimal(x)[|Decimal(x)| - 1];
    }
  }

  /** With the trailing whitespace dropped, what `serialize(BigDecimal)`
      writes is read back as the same value whatever whitespace follows
      it: `1E+5 ` is `1E+5`. */
  lemma TrimmedRoundTrip(buf: seq<Char>, len: int, d: BigDec, generic: Generic)
    requires IsInt(d.scale) && |DecimalString(d)| <= 18 && |DecimalString(d)| <= len <= |buf|
    requires buf[..|DecimalString(d)|] == DecimalString(d)
    requires forall k | |DecimalString(d)| <= k < len :: JavaWhitespace(buf[k])
    ensures ReadDecimalTrimmed(buf, len, generic) == Ok(d)
  {
    var t := DecimalString(d);
    ToStringEndsInDigit(d);
    assert buf[|t| - 1] == t[|t| - 1];
    TrimmedEndAt(buf, |t|, len);
    ToStringRoundTrip(buf, d, generic);
  }
}

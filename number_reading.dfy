/** The reading half of the library's `NumberConverter`: `int` and `long`
    values accumulated digit by digit with a sign-change overflow test,
    decimals as a `BigDecimal` built from an unscaled `long` and a scale,
    and the `int[]`/`long[]` readers. Where the text is not plain digits the
    library hands it to the JDK's `BigDecimal` parser, which is a parameter
    here. */
module NumberReading {
  import opened Java
  import opened DecimalText
  import opened ReaderSpec
  import JsonReader

  /** A `BigDecimal`: its value is `unscaled * 10^-scale`. */
  datatype BigDec = BigDec(unscaled: int, scale: int)

  /** What `deserializeNumber` returns: a `Long` or a `BigDecimal`. */
  datatype Num = LongNum(long: int) | DecNum(decimal: BigDec)

  /** `new BigDecimal(chars, 0, len)` of the JDK, after `parseNumberGeneric`
      has trimmed trailing whitespace: `None` where it throws
      `NumberFormatException`. */
  type Generic = seq<Char> -> Option<BigDec>

  /** `int` (`wide` false) or `long` (`wide` true). */
  predicate InRange(wide: bool, x: int) {
    if wide then IsLong(x) else IsInt(x)
  }

  /** Arithmetic in an `int` or a `long`: the result wraps around. */
  function Wrap(wide: bool, x: int): (r: int)
    ensures InRange(wide, r)
    ensures InRange(wide, x) ==> r == x
  {
    if wide then Int64(x) else Int32(x)
  }

  function OverflowMessage(wide: bool): string {
    if wide then "Long overflow detected" else "Integer overflow detected"
  }

  const PARSE_ERROR := "Error parsing number"

  /** The integer value of a `BigDecimal` whose scale is not positive. */
  function Integral(d: BigDec): int
    requires d.scale <= 0
  {
    d.unscaled * Pow10(-d.scale)
  }

  /** `intValueExact()`/`longValueExact()` before the range check: the
      value when it has no fractional part. */
  function ExactIntegral(d: BigDec): Option<int> {
    if d.scale <= 0 then Some(Integral(d))
    else if d.unscaled % Pow10(d.scale) == 0 then Some(d.unscaled / Pow10(d.scale))
    else None
  }

  // ---------------------------------------------------------------------
  // int and long

  /** `parseNumberGeneric(reader.prepareBuffer(start), end - start)`: the
      token's bytes, as chars, through the `BigDecimal` parser. */
  function NumberGeneric(t: ReaderState, start: int, end: int, generic: Generic): (r: Result<Out<BigDec>>)
    requires t.Valid() && 0 <= start <= end <= |t.buf|
    ensures r.Ok? ==> r.value.st == PrepareBuffer(t, start)
  {
    match generic(Chars(t.buf[start..end]))
    case None => Err(IOError(PARSE_ERROR))
    case Some(d) => Ok(Out(d, PrepareBuffer(t, start)))
  }

  /** The fallback of the digit loops: a `BigDecimal` without a fractional
      scale gives its `intValue()`/`longValue()` (the low 32 or 64 bits);
      one with a positive scale is an error. */
  function IntegralFromGeneric(t: ReaderState, start: int, end: int, wide: bool, generic: Generic): (r: Result<Out<int>>)
    requires t.Valid() && 0 <= start <= end <= |t.buf|
    ensures r.Ok? ==> InRange(wide, r.value.value) && r.value.st == PrepareBuffer(t, start)
  {
    var g :- NumberGeneric(t, start, end, generic);
    if g.value.scale <= 0 then Ok(Out(Wrap(wide, Integral(g.value)), g.st))
    else Err(IOError(if wide then "Error parsing long number. Found decimal value" else "Error parsing int number. Found decimal value"))
  }

  /** The loops of `parsePositiveInt` and `parseNegativeInt` (and the two
      loops of `deserializeLong`) from index `i` with `value` read so far:
      `(value << 3) + (value << 1) + ind` is `10 * value + ind` in the
      integer's width; a change of sign is reported as an overflow. A
      non-digit ends the number when only whitespace follows it, and
      otherwise sends the whole token to the `BigDecimal` parser. */
  function DigitLoop(t: ReaderState, start: int, end: int, i: int, value: int,
                     negative: bool, wide: bool, generic: Generic): (r: Result<Out<int>>)
    requires t.Valid() && 0 <= start <= i && end <= |t.buf| && InRange(wide, value)
    ensures r.Ok? ==> InRange(wide, r.value.value)
    ensures r.Ok? ==> r.value.st == t || r.value.st == PrepareBuffer(t, start)
    decreases end - i
  {
    if i >= end then Ok(Out(value, t))
    else
      var ind := t.buf[i] - '0' as int;
      if ind < 0 || ind > 9 then
        if AllWhitespace(t.buf, i, end) then Ok(Out(value, t))
        else IntegralFromGeneric(t, start, end, wide, generic)
      else
        var v := Wrap(wide, if negative then value * 10 - ind else value * 10 + ind);
        if (if negative then v > 0 else v < 0) then Err(IOError(OverflowMessage(wide)))
        else DigitLoop(t, start, end, i + 1, v, negative, wide, generic)
  }

  /** A number in quotes, read with `readSimpleQuote()` into the `tmp`
      buffer of `tmpLength` characters and converted exactly: a fractional
      part or a value outside the range is an overflow. */
  function QuotedIntegral(s: ReaderState, wide: bool, generic: Generic, tmpLength: int): (r: Result<Out<int>>)
    requires s.Valid()
    ensures r.Ok? ==> InRange(wide, r.value.value) && Moves(s, r.value.st)
  {
    var t :- ReadSimpleQuote(s, tmpLength);
    var len := t.currentIndex - s.currentIndex - 1;
    if len < 0 then Err(IOError(PARSE_ERROR))
    else match generic(Chars(s.buf[s.currentIndex..s.currentIndex + len]))
      case None => Err(IOError(PARSE_ERROR))
      case Some(d) =>
        var v := ExactIntegral(d);
        if v.Some? && InRange(wide, v.value) then Ok(Out(v.value, t))
        else Err(IOError(OverflowMessage(wide)))
  }

  /** `deserializeInt` (`wide` false) and `deserializeLong` (`wide` true),
      with `last` on the first byte of the value: a quoted number, or the
      token up to the next `,`, `}` or `]` with an optional sign. */
  function ReadIntegral(s: ReaderState, wide: bool, generic: Generic, tmpLength: int): (r: Result<Out<int>>)
    requires s.Valid()
    ensures r.Ok? ==> InRange(wide, r.value.value) && Moves(s, r.value.st)
  {
    if s.last == QUOTE then QuotedIntegral(s, wide, generic, tmpLength)
    else
      var sc := ScanNumber(s);
      var start, t := sc.value, sc.st;
      if start < 0 then Err(IndexOutOfBounds)
      else
        var ch := t.buf[start];
        if ch == MINUS then DigitLoop(t, start, t.currentIndex, start + 1, 0, true, wide, generic)
        else if ch == PLUS then DigitLoop(t, start, t.currentIndex, start + 1, 0, false, wide, generic)
        else DigitLoop(t, start, t.currentIndex, start, 0, false, wide, generic)
  }

  // ---------------------------------------------------------------------
  // Decimals

  predicate IsExponentMark(b: int) { b == 'e' as int || b == 'E' as int }

  /** The exponent after the `e` or `E` at `i - 1`: an optional sign, then
      the int loops. The byte at `i` is read even at the end of the token. */
  function Exponent(t: ReaderState, start: int, end: int, i: int, generic: Generic): (r: Result<Out<int>>)
    requires t.Valid() && 0 <= start < i && end <= |t.buf|
    ensures r.Ok? ==> IsInt(r.value.value)
    ensures r.Ok? ==> r.value.st == t || r.value.st == PrepareBuffer(t, start)
  {
    if i >= |t.buf| then Err(IndexOutOfBounds)
    else
      var ch := t.buf[i];
      if ch == MINUS then DigitLoop(t, start, end, i + 1, 0, true, false, generic)
      else if ch == PLUS then DigitLoop(t, start, end, i + 1, 0, false, false, generic)
      else DigitLoop(t, start, end, i, 0, false, false, generic)
  }

  /** The digits after the decimal point, which starts the fraction at
      `dp`: each one is accumulated into the unscaled `long`; the scale is
      the number of fraction digits less the exponent, in `int`
      arithmetic. */
  function FractionDigits(t: ReaderState, start: int, end: int, dp: int, i: int, value: int,
                          negative: bool, generic: Generic): (r: Result<Out<Num>>)
    requires t.Valid() && 0 <= start < dp <= i <= end <= |t.buf| && IsLong(value)
    ensures r.Ok? ==> r.value.value.DecNum?
    ensures r.Ok? ==> r.value.st == t || r.value.st == PrepareBuffer(t, start)
    decreases end - i
  {
    if i == end then Ok(Out(DecNum(BigDec(value, end - dp)), t))
    else
      var ch := t.buf[i];
      if IsExponentMark(ch) then
        var e :- Exponent(t, start, end, i + 1, generic);
        Ok(Out(DecNum(BigDec(value, Int32(i - dp - e.value))), e.st))
      else
        var ind := ch - '0' as int;
        if ind < 0 || ind > 9 then
          var g :- NumberGeneric(t, start, end, generic);
          Ok(Out(DecNum(g.value), g.st))
        else FractionDigits(t, start, end, dp, i + 1, Int64(if negative then value * 10 - ind else value * 10 + ind), negative, generic)
  }

  /** The digits before a decimal point or exponent, as the loops of
      `parsePositiveDecimal`, `parseNegativeDecimal` (`number` false) and
      `parsePositiveNumber`, `parseNegativeNumber` (`number` true) run them.
      A non-digit followed by whitespace only ends the number in all but
      `parsePositiveDecimal`. A plain integer is a `Long` for
      `deserializeNumber`. */
  function IntegerDigits(t: ReaderState, start: int, end: int, i: int, value: int,
                         negative: bool, number: bool, generic: Generic): (r: Result<Out<Num>>)
    requires t.Valid() && 0 <= start <= i && end <= |t.buf| && IsLong(value)
    ensures !number && r.Ok? ==> r.value.value.DecNum?
    ensures r.Ok? ==> r.value.st == t || r.value.st == PrepareBuffer(t, start)
    decreases end - i
  {
    if i >= end then Ok(Out(if i == end && number then LongNum(value) else DecNum(BigDec(value, 0)), t))
    else
      var ch := t.buf[i];
      if ch == '.' as int then FractionDigits(t, start, end, i + 1, i + 1, value, negative, generic)
      else if IsExponentMark(ch) then
        var e :- Exponent(t, start, end, i + 1, generic);
        Ok(Out(DecNum(BigDec(value, Int32(-e.value))), e.st))
      else
        var ind := ch - '0' as int;
        if ind < 0 || ind > 9 then
          if (negative || number) && AllWhitespace(t.buf, i, end) then
            Ok(Out(if number then LongNum(value) else DecNum(BigDec(value, 0)), t))
          else
            var g :- NumberGeneric(t, start, end, generic);
            Ok(Out(DecNum(g.value), g.st))
        else IntegerDigits(t, start, end, i + 1, Int64(if negative then value * 10 - ind else value * 10 + ind), negative, number, generic)
  }

  /** The sign dispatch of `deserializeDecimal` and `deserializeNumber`. */
  function Mantissa(t: ReaderState, start: int, end: int, number: bool, generic: Generic): (r: Result<Out<Num>>)
    requires t.Valid() && 0 <= start < |t.buf| && end <= |t.buf|
    ensures !number && r.Ok? ==> r.value.value.DecNum?
    ensures r.Ok? ==> r.value.st == t || r.value.st == PrepareBuffer(t, start)
  {
    var ch := t.buf[start];
    if ch == MINUS then IntegerDigits(t, start, end, start + 1, 0, true, number, generic)
    else if ch == PLUS then IntegerDigits(t, start, end, start + 1, 0, false, number, generic)
    else IntegerDigits(t, start, end, start, 0, false, number, generic)
  }

  /** `tryLongFromBigDecimal`: a `Long` when the scale is 0, the precision
      at most 19 and the value within the `long` range. */
  function TryLongFromBigDecimal(d: BigDec): Num {
    if d.scale == 0 && |DecimalDigits(if d.unscaled < 0 then -d.unscaled else d.unscaled)| <= 19 then
      if d.unscaled > 0 then
        if d.unscaled <= LONG_MAX then LongNum(d.unscaled) else DecNum(d)
      else if d.unscaled >= LONG_MIN then LongNum(d.unscaled) else DecNum(d)
    else DecNum(d)
  }

  /** The unquoted token of `deserializeDecimal` (`number` false) and
      `deserializeNumber` (`number` true). A token longer than 18 bytes is
      first trimmed of trailing whitespace; if it then runs to the end of
      the input, or is still longer than 18 bytes, it goes to the
      `BigDecimal` parser, whose result `deserializeNumber` narrows with
      `tryLongFromBigDecimal`. */
  function ReadNumberToken(s: ReaderState, number: bool, generic: Generic): (r: Result<Out<Num>>)
    requires s.Valid()
    ensures !number && r.Ok? ==> r.value.value.DecNum?
    ensures r.Ok? ==> Moves(s, r.value.st)
  {
    var sc := ScanNumber(s);
    var start, t := sc.value, sc.st;
    var end := t.currentIndex;
    if start < 0 then Err(IndexOutOfBounds)
    else if end - start > 18 then
      var e := FindNonWhitespace(t.buf, end);
      if e == t.length || e - start > 18 then
        if e == t.length && t.currentIndex != t.length then Err(IOError("Unexpected end of JSON input"))
        else
          var g :- NumberGeneric(t, start, e, generic);
          Ok(Out(if number then TryLongFromBigDecimal(g.value) else DecNum(g.value), g.st))
      else Mantissa(t, start, e, number, generic)
    else Mantissa(t, start, end, number, generic)
  }

  /** `deserializeDecimal`: a quoted number is decoded as a string and
      handed to the `BigDecimal` parser. */
  function ReadDecimal(s: ReaderState, generic: Generic): (r: Result<Out<BigDec>>)
    requires s.Valid()
    ensures r.Ok? ==> Moves(s, r.value.st)
  {
    if s.last == QUOTE then
      var p :- ParseString(s);
      match generic(p.value)
      case None => Err(IOError(PARSE_ERROR))
      case Some(d) => Ok(Out(d, p.st))
    else
      var n :- ReadNumberToken(s, false, generic);
      Ok(Out(n.value.decimal, n.st))
  }

  /** `deserializeNumber`. */
  function ReadNumber(s: ReaderState, generic: Generic): (r: Result<Out<Num>>)
    requires s.Valid()
    ensures r.Ok? ==> Moves(s, r.value.st)
  {
    ReadNumberToken(s, true, generic)
  }

  // ---------------------------------------------------------------------
  // int[] and long[]

  /** One turn of the loop of `deserializeIntArray`/`deserializeLongArray`,
      entered on a comma: the next token starts an element, and the token
      after the element is returned with it. */
  function NextIntegral(s: ReaderState, wide: bool, generic: Generic, tmpLength: int): (r: Result<Out<(int, Byte)>>)
    requires s.Valid()
    ensures r.Ok? ==> Moves(s, r.value.st) && r.value.st.currentIndex > s.currentIndex
    ensures r.Ok? ==> InRange(wide, r.value.value.0) && r.value.value.1 == r.value.st.last
  {
    var f :- NextToken(s);
    var e :- ReadIntegral(f.st, wide, generic, tmpLength);
    var t :- NextToken(e.st);
    Ok(Out((e.value, t.value), t.st))
  }

  /** The loop from the state after `token`: while it is a comma, read one
      more element; then the array must close. */
  function MoreIntegrals(s: ReaderState, token: Byte, wide: bool, generic: Generic, tmpLength: int, acc: seq<int>): (r: Result<Out<seq<int>>>)
    requires s.Valid()
    ensures r.Ok? ==> Moves(s, r.value.st) && r.value.st.last == ARRAY_END
    ensures r.Ok? ==> |acc| <= |r.value.value| && r.value.value[..|acc|] == acc
    decreases |s.buf| - s.currentIndex
  {
    if token == COMMA then
      var n :- NextIntegral(s, wide, generic, tmpLength);
      var r := MoreIntegrals(n.st, n.value.1, wide, generic, tmpLength, acc + [n.value.0]);
      assert r.Ok? ==> (acc + [n.value.0])[..|acc|] == acc;
      r
    else
      var _ :- CheckArrayEnd(s);
      Ok(Out(acc, s))
  }

  /** `deserializeIntArray` (`wide` false) and `deserializeLongArray`
      (`wide` true), with `last` on the byte after `[`: an empty array at
      once when it is `]`. */
  function IntegralArray(s: ReaderState, wide: bool, generic: Generic, tmpLength: int): (r: Result<Out<seq<int>>>)
    requires s.Valid()
    ensures r.Ok? ==> Moves(s, r.value.st) && r.value.st.last == ARRAY_END
    ensures r.Ok? ==> forall k | 0 <= k < |r.value.value| :: InRange(wide, r.value.value[k])
  {
    if s.last == ARRAY_END then Ok(Out([], s))
    else
      var first :- ReadIntegral(s, wide, generic, tmpLength);
      var t :- NextToken(first.st);
      MoreIntegralsInRange(t.st, t.value, wide, generic, tmpLength, [first.value]);
      MoreIntegrals(t.st, t.value, wide, generic, tmpLength, [first.value])
  }

  /** Every element the loop appends was read by `deserializeInt` or
      `deserializeLong`, so it lies in the integer's range. */
  lemma {:induction false} MoreIntegralsInRange(s: ReaderState, token: Byte, wide: bool, generic: Generic, tmpLength: int, acc: seq<int>)
    requires s.Valid() && forall k | 0 <= k < |acc| :: InRange(wide, acc[k])
    ensures var r := MoreIntegrals(s, token, wide, generic, tmpLength, acc);
      r.Ok? ==> forall k | 0 <= k < |r.value.value| :: InRange(wide, r.value.value[k])
    decreases |s.buf| - s.currentIndex
  {
    if token == COMMA {
      var n := NextIntegral(s, wide, generic, tmpLength);
      if n.Ok? {
        MoreIntegralsInRange(n.value.st, n.value.value.1, wide, generic, tmpLength, acc + [n.value.value.0]);
      }
    }
  }

  // ---------------------------------------------------------------------
  // The reading methods, over the reader's buffer

  /** `parseNumberGeneric(reader.prepareBuffer(start), end - start)`. */
  method ParseNumberGeneric(reader: JsonReader.JsonReader, start: int, end: int, generic: Generic) returns (r: Result<BigDec>)
    requires reader.Valid() && 0 <= start <= end <= reader.buffer.Length
    modifies reader
    ensures reader.Valid() && reader.Agrees(r, NumberGeneric(old(reader.State()), start, end, generic))
  {
    reader.PrepareBuffer(start);
    var text := Chars(reader.buffer[start..end]);
    match generic(text)
    case None =>
      return Err(IOError(PARSE_ERROR));
    case Some(d) =>
      return Ok(d);
  }

  /** `parseLongGeneric` and its inline `int` twin. */
  method ParseIntegralGeneric(reader: JsonReader.JsonReader, start: int, end: int, wide: bool, generic: Generic) returns (r: Result<int>)
    requires reader.Valid() && 0 <= start <= end <= reader.buffer.Length
    modifies reader
    ensures reader.Valid() && reader.Agrees(r, IntegralFromGeneric(old(reader.State()), start, end, wide, generic))
  {
    var v :- ParseNumberGeneric(reader, start, end, generic);
    if v.scale <= 0 {
      return Ok(Wrap(wide, Integral(v)));
    }
    return Err(IOError(if wide then "Error parsing long number. Found decimal value" else "Error parsing int number. Found decimal value"));
  }

  /** `parsePositiveInt` (`negative` false), `parseNegativeInt` (`negative`
      true) and the two loops of `deserializeLong` (`wide` true). */
  method ParseDigits(reader: JsonReader.JsonReader, start: int, end: int, i0: int,
                     negative: bool, wide: bool, generic: Generic) returns (r: Result<int>)
    requires reader.Valid() && 0 <= start <= i0 && end <= reader.buffer.Length
    modifies reader
    ensures reader.Valid() && reader.Agrees(r, DigitLoop(old(reader.State()), start, end, i0, 0, negative, wide, generic))
  {
    var i, value, overflow := DigitsLoop(reader, start, end, i0, negative, wide, generic);
    if overflow {
      return Err(IOError(OverflowMessage(wide)));
    } else if i < end {
      r := DigitsEnd(reader, start, end, i, value, wide, generic);
    } else {
      return Ok(value);
    }
  }

  /** The digit loop of `ParseDigits`: it stops at the end of the token, at
      a byte that is not a digit, or when the value changes sign. */
  method DigitsLoop(reader: JsonReader.JsonReader, start: int, end: int, i0: int,
                    negative: bool, wide: bool, generic: Generic) returns (i: int, value: int, overflow: bool)
    requires reader.Valid() && 0 <= start <= i0 && end <= reader.buffer.Length
    ensures start <= i && InRange(wide, value)
    ensures !overflow && i < end ==> !IsDigit(reader.buffer[i])
    ensures DigitLoop(reader.State(), start, end, i0, 0, negative, wide, generic)
         == if overflow then Err(IOError(OverflowMessage(wide))) else DigitLoop(reader.State(), start, end, i, value, negative, wide, generic)
  {
    ghost var t := reader.State();
    value := 0;
    i := i0;
    overflow := false;
    while i < end
      invariant start <= i && InRange(wide, value) && !overflow
      invariant DigitsSoFar(t, start, end, i0, i, value, negative, wide, generic)
      decreases end - i
    {
      var ind := reader.buffer[i] - '0' as int;
      if ind < 0 || ind > 9 {
        break;
      }
      var next := Wrap(wide, if negative then value * 10 - ind else value * 10 + ind);
      if (if negative then next > 0 else next < 0) {
        DigitLoopOverflow(t, start, end, i0, i, value, next, negative, wide, generic);
        overflow := true;
        break;
      }
      DigitLoopStep(t, start, end, i0, i, value, next, negative, wide, generic);
      value, i := next, i + 1;
    }
    assert Hold(());
  }

  /** The int and long loops from `i` with `value` return what they return
      from `i0`. */
  ghost predicate DigitsSoFar(t: ReaderState, start: int, end: int, i0: int, i: int, value: int,
                              negative: bool, wide: bool, generic: Generic)
    requires t.Valid() && 0 <= start <= i0 && start <= i && end <= |t.buf| && InRange(wide, value)
  {
    forall u: () {:trigger Hold(u)} :: Hold(u) ==>
      DigitLoop(t, start, end, i0, 0, negative, wide, generic) == DigitLoop(t, start, end, i, value, negative, wide, generic)
  }

  /** One digit of the int and long loops that keeps the sign. */
  lemma DigitLoopStep(t: ReaderState, start: int, end: int, i0: int, i: int, value: int, next: int,
                      negative: bool, wide: bool, generic: Generic)
    requires t.Valid() && 0 <= start <= i0 && start <= i < end <= |t.buf| && InRange(wide, value) && IsDigit(t.buf[i])
    requires next == Wrap(wide, if negative then value * 10 - (t.buf[i] - '0' as int) else value * 10 + (t.buf[i] - '0' as int))
    requires !(if negative then next > 0 else next < 0)
    requires DigitsSoFar(t, start, end, i0, i, value, negative, wide, generic)
    ensures InRange(wide, next) && DigitsSoFar(t, start, end, i0, i + 1, next, negative, wide, generic)
  {
    assert Hold(());
  }

  /** A digit that changes the sign ends the int and long loops with the
      overflow error. */
  lemma DigitLoopOverflow(t: ReaderState, start: int, end: int, i0: int, i: int, value: int, next: int,
                          negative: bool, wide: bool, generic: Generic)
    requires t.Valid() && 0 <= start <= i0 && start <= i < end <= |t.buf| && InRange(wide, value) && IsDigit(t.buf[i])
    requires next == Wrap(wide, if negative then value * 10 - (t.buf[i] - '0' as int) else value * 10 + (t.buf[i] - '0' as int))
    requires if negative then next > 0 else next < 0
    requires DigitsSoFar(t, start, end, i0, i, value, negative, wide, generic)
    ensures DigitLoop(t, start, end, i0, 0, negative, wide, generic) == Err(IOError(OverflowMessage(wide)))
  {
    assert Hold(());
  }

  /** A non-digit in the int and long loops: the value read so far when
      only whitespace follows, otherwise the `BigDecimal` fallback. */
  method DigitsEnd(reader: JsonReader.JsonReader, start: int, end: int, i: int, value: int,
                   wide: bool, generic: Generic) returns (r: Result<int>)
    requires reader.Valid() && 0 <= start <= i < end <= reader.buffer.Length && InRange(wide, value)
    requires !IsDigit(reader.buffer[i])
    modifies reader
    ensures reader.Valid() && forall negative: bool ::
      reader.Agrees(r, DigitLoop(old(reader.State()), start, end, i, value, negative, wide, generic))
  {
    var ws := reader.AllWhitespace(i, end);
    if ws {
      return Ok(value);
    }
    r := ParseIntegralGeneric(reader, start, end, wide, generic);
  }

  /** The quoted branch of `deserializeInt`/`deserializeLong`. */
  method DeserializeQuoted(reader: JsonReader.JsonReader, wide: bool, generic: Generic, tmpLength: int) returns (r: Result<int>)
    requires reader.Valid()
    modifies reader
    ensures reader.Valid() && reader.Agrees(r, QuotedIntegral(old(reader.State()), wide, generic, tmpLength))
  {
    var position := reader.currentIndex;
    var _ :- reader.ReadSimpleQuote(tmpLength);
    var len := reader.currentIndex - position - 1;
    if len < 0 {
      return Err(IOError(PARSE_ERROR));
    }
    var text := Chars(reader.buffer[position..position + len]);
    match generic(text)
    case None =>
      return Err(IOError(PARSE_ERROR));
    case Some(d) =>
      var v := ExactIntegral(d);
      if v.Some? && InRange(wide, v.value) {
        return Ok(v.value);
      }
      return Err(IOError(OverflowMessage(wide)));
  }

  /** `deserializeInt` (`wide` false) and `deserializeLong` (`wide` true). */
  method DeserializeIntegral(reader: JsonReader.JsonReader, wide: bool, generic: Generic, tmpLength: int) returns (r: Result<int>)
    requires reader.Valid()
    modifies reader
    ensures reader.Valid() && reader.Agrees(r, ReadIntegral(old(reader.State()), wide, generic, tmpLength))
  {
    if reader.last == QUOTE {
      r := DeserializeQuoted(reader, wide, generic, tmpLength);
      return;
    }
    var start := reader.ScanNumber();
    var end := reader.currentIndex;
    if start < 0 {
      return Err(IndexOutOfBounds);
    }
    var ch := reader.buffer[start];
    if ch == MINUS {
      r := ParseDigits(reader, start, end, start + 1, true, wide, generic);
    } else if ch == PLUS {
      r := ParseDigits(reader, start, end, start + 1, false, wide, generic);
    } else {
      r := ParseDigits(reader, start, end, start, false, wide, generic);
    }
  }

  /** The exponent after an `e` or `E`. */
  method ParseExponent(reader: JsonReader.JsonReader, start: int, end: int, i: int, generic: Generic) returns (r: Result<int>)
    requires reader.Valid() && 0 <= start < i && end <= reader.buffer.Length
    modifies reader
    ensures reader.Valid() && reader.Agrees(r, Exponent(old(reader.State()), start, end, i, generic))
  {
    if i >= reader.buffer.Length {
      return Err(IndexOutOfBounds);
    }
    var ch := reader.buffer[i];
    if ch == MINUS {
      r := ParseDigits(reader, start, end, i + 1, true, false, generic);
    } else if ch == PLUS {
      r := ParseDigits(reader, start, end, i + 1, false, false, generic);
    } else {
      r := ParseDigits(reader, start, end, i, false, false, generic);
    }
  }

  /** The fraction loop of the decimal and number parsers; it only stops
      before the end of the token at an exponent mark. */
  method ParseFraction(reader: JsonReader.JsonReader, start: int, end: int, dp: int, value0: int,
                       negative: bool, generic: Generic) returns (r: Result<Num>)
    requires reader.Valid() && 0 <= start < dp <= end <= reader.buffer.Length && IsLong(value0)
    modifies reader
    ensures reader.Valid() && reader.Agrees(r, FractionDigits(old(reader.State()), start, end, dp, dp, value0, negative, generic))
  {
    var i, value, other := FractionLoop(reader, start, end, dp, value0, negative, generic);
    if other {
      var g :- ParseNumberGeneric(reader, start, end, generic);
      return Ok(DecNum(g));
    }
    if i == end {
      return Ok(DecNum(BigDec(value, end - dp)));
    }
    r := ExponentAfterFraction(reader, start, end, dp, i, value, negative, generic);
  }

  /** An exponent mark after the fraction digits: the scale counts the
      digits after the point, less the exponent. */
  method ExponentAfterFraction(reader: JsonReader.JsonReader, start: int, end: int, dp: int, i: int, value: int,
                               negative: bool, generic: Generic) returns (r: Result<Num>)
    requires reader.Valid() && 0 <= start < dp <= i < end <= reader.buffer.Length && IsLong(value)
    requires IsExponentMark(reader.buffer[i])
    modifies reader
    ensures reader.Valid() && reader.Agrees(r, FractionDigits(old(reader.State()), start, end, dp, i, value, negative, generic))
  {
    var exp :- ParseExponent(reader, start, end, i + 1, generic);
    return Ok(DecNum(BigDec(value, Int32(i - dp - exp))));
  }

  /** The digit loop of `ParseFraction`: it stops at the end of the token,
      at an exponent mark, or at another byte that is not a digit. */
  method FractionLoop(reader: JsonReader.JsonReader, start: int, end: int, dp: int, value0: int,
                      negative: bool, generic: Generic) returns (i: int, value: int, other: bool)
    requires reader.Valid() && 0 <= start < dp <= end <= reader.buffer.Length && IsLong(value0)
    ensures dp <= i <= end && IsLong(value)
    ensures other ==> i < end && !IsExponentMark(reader.buffer[i]) && !IsDigit(reader.buffer[i])
    ensures !other && i < end ==> IsExponentMark(reader.buffer[i])
    ensures FractionDigits(reader.State(), start, end, dp, dp, value0, negative, generic)
         == FractionDigits(reader.State(), start, end, dp, i, value, negative, generic)
  {
    ghost var t := reader.State();
    value := value0;
    i := dp;
    other := false;
    while i < end
      invariant dp <= i <= end && IsLong(value)
      invariant FractionSoFar(t, start, end, dp, value0, i, value, negative, generic)
      decreases end - i
    {
      var ch := reader.buffer[i];
      if IsExponentMark(ch) {
        break;
      }
      var ind := ch - '0' as int;
      if ind < 0 || ind > 9 {
        other := true;
        break;
      }
      var next := Int64(if negative then value * 10 - ind else value * 10 + ind);
      FractionStep(t, start, end, dp, value0, i, value, next, negative, generic);
      value, i := next, i + 1;
    }
    assert Hold(());
  }

  /** The fraction loop from `i` with `value` returns what it returns from
      the decimal point. */
  ghost predicate FractionSoFar(t: ReaderState, start: int, end: int, dp: int, value0: int, i: int, value: int,
                                negative: bool, generic: Generic)
    requires t.Valid() && 0 <= start < dp <= i <= end <= |t.buf| && IsLong(value0) && IsLong(value)
  {
    forall u: () {:trigger Hold(u)} :: Hold(u) ==>
      FractionDigits(t, start, end, dp, dp, value0, negative, generic) == FractionDigits(t, start, end, dp, i, value, negative, generic)
  }

  /** One digit of the fraction loop. */
  lemma FractionStep(t: ReaderState, start: int, end: int, dp: int, value0: int, i: int, value: int, next: int,
                     negative: bool, generic: Generic)
    requires t.Valid() && 0 <= start < dp <= i < end <= |t.buf| && IsLong(value0) && IsLong(value) && IsDigit(t.buf[i])
    requires next == Int64(if negative then value * 10 - (t.buf[i] - '0' as int) else value * 10 + (t.buf[i] - '0' as int))
    requires FractionSoFar(t, start, end, dp, value0, i, value, negative, generic)
    ensures FractionSoFar(t, start, end, dp, value0, i + 1, next, negative, generic)
  {
    assert Hold(());
  }

  /** The loops of `parsePositiveDecimal`, `parseNegativeDecimal`
      (`number` false), `parsePositiveNumber` and `parseNegativeNumber`
      (`number` true): digits until a decimal point or an exponent mark. */
  method ParseIntegerDigits(reader: JsonReader.JsonReader, start: int, end: int, i0: int,
                            negative: bool, number: bool, generic: Generic) returns (r: Result<Num>)
    requires reader.Valid() && 0 <= start <= i0 && end <= reader.buffer.Length
    modifies reader
    ensures reader.Valid() && reader.Agrees(r, IntegerDigits(old(reader.State()), start, end, i0, 0, negative, number, generic))
  {
    var i, value, ch, other := IntegerDigitsLoop(reader, start, end, i0, negative, number, generic);
    if other {
      r := NotADigit(reader, start, end, i, value, negative, number, generic);
    } else {
      r := AfterIntegerDigits(reader, start, end, i, ch, value, negative, number, generic);
    }
  }

  /** The digit loop of `ParseIntegerDigits`: it stops at the end of the
      token, at a decimal point or exponent mark, or at another byte. */
  method IntegerDigitsLoop(reader: JsonReader.JsonReader, start: int, end: int, i0: int,
                           negative: bool, number: bool, generic: Generic)
    returns (i: int, value: int, ch: int, other: bool)
    requires reader.Valid() && 0 <= start <= i0 && end <= reader.buffer.Length
    ensures start <= i && IsLong(value)
    ensures i > end ==> ch == ' ' as int
    ensures other ==> i < end && ch == reader.buffer[i] && ch != '.' as int && !IsExponentMark(ch) && !IsDigit(ch)
    ensures !other && i < end ==> ch == reader.buffer[i] && (ch == '.' as int || IsExponentMark(ch))
    ensures IntegerDigits(reader.State(), start, end, i0, 0, negative, number, generic)
         == IntegerDigits(reader.State(), start, end, i, value, negative, number, generic)
  {
    ghost var t := reader.State();
    value := 0;
    i := i0;
    ch := ' ' as int;
    other := false;
    while i < end && !other
      invariant start <= i && IsLong(value)
      invariant i > end ==> ch == ' ' as int
      invariant other ==> i < end && ch == reader.buffer[i] && ch != '.' as int && !IsExponentMark(ch) && !IsDigit(ch)
      invariant IntegerSoFar(t, start, end, i0, i, value, negative, number, generic)
      decreases end - i, if other then 0 else 1
    {
      ch := reader.buffer[i];
      if ch == '.' as int || IsExponentMark(ch) {
        break;
      }
      var ind := ch - '0' as int;
      if ind < 0 || ind > 9 {
        other := true;
      } else {
        var next := Int64(if negative then value * 10 - ind else value * 10 + ind);
        IntegerDigitsStep(t, start, end, i0, i, value, next, negative, number, generic);
        value, i := next, i + 1;
      }
    }
    assert Hold(());
  }

  /** The loop before the decimal point from `i` with `value` returns what
      it returns from `i0`. */
  ghost predicate IntegerSoFar(t: ReaderState, start: int, end: int, i0: int, i: int, value: int,
                               negative: bool, number: bool, generic: Generic)
    requires t.Valid() && 0 <= start <= i0 && start <= i && end <= |t.buf| && IsLong(value)
  {
    forall u: () {:trigger Hold(u)} :: Hold(u) ==>
      IntegerDigits(t, start, end, i0, 0, negative, number, generic) == IntegerDigits(t, start, end, i, value, negative, number, generic)
  }

  /** One digit of the loop before the decimal point. */
  lemma IntegerDigitsStep(t: ReaderState, start: int, end: int, i0: int, i: int, value: int, next: int,
                          negative: bool, number: bool, generic: Generic)
    requires t.Valid() && 0 <= start <= i0 && start <= i < end <= |t.buf| && IsLong(value) && IsDigit(t.buf[i])
    requires next == Int64(if negative then value * 10 - (t.buf[i] - '0' as int) else value * 10 + (t.buf[i] - '0' as int))
    requires IntegerSoFar(t, start, end, i0, i, value, negative, number, generic)
    ensures IntegerSoFar(t, start, end, i0, i + 1, next, negative, number, generic)
  {
    assert Hold(());
  }

  /** A byte that is not a digit among the digits before the decimal point:
      trailing whitespace ends the number (except in
      `parsePositiveDecimal`); anything else goes to the `BigDecimal`
      parser. `parsePositiveDecimal` accumulates the byte before this test,
      which makes no difference since the value is then abandoned. */
  method NotADigit(reader: JsonReader.JsonReader, start: int, end: int, i: int, value: int,
                   negative: bool, number: bool, generic: Generic) returns (r: Result<Num>)
    requires reader.Valid() && 0 <= start <= i < end <= reader.buffer.Length && IsLong(value)
    requires var ch := reader.buffer[i]; ch != '.' as int && !IsExponentMark(ch) && !IsDigit(ch)
    modifies reader
    ensures reader.Valid() && reader.Agrees(r, IntegerDigits(old(reader.State()), start, end, i, value, negative, number, generic))
  {
    if negative || number {
      var ws := reader.AllWhitespace(i, end);
      if ws {
        return Ok(if number then LongNum(value) else DecNum(BigDec(value, 0)));
      }
    }
    var g :- ParseNumberGeneric(reader, start, end, generic);
    return Ok(DecNum(g));
  }

  /** What follows the digits before the decimal point: the end of the
      token, a fraction, or an exponent. */
  method AfterIntegerDigits(reader: JsonReader.JsonReader, start: int, end: int, i: int, ch: int, value: int,
                            negative: bool, number: bool, generic: Generic) returns (r: Result<Num>)
    requires reader.Valid() && 0 <= start <= i && end <= reader.buffer.Length && IsLong(value)
    requires i < end ==> ch == reader.buffer[i] && (ch == '.' as int || IsExponentMark(ch))
    requires i > end ==> ch == ' ' as int
    modifies reader
    ensures reader.Valid() && reader.Agrees(r, IntegerDigits(old(reader.State()), start, end, i, value, negative, number, generic))
  {
    ghost var t := reader.State();
    if i == end {
      return Ok(if number then LongNum(value) else DecNum(BigDec(value, 0)));
    } else if ch == '.' as int {
      PointThenFraction(t, start, end, i, value, negative, number, generic);
      r := ParseFraction(reader, start, end, i + 1, value, negative, generic);
    } else if IsExponentMark(ch) {
      r := ExponentAfterDigits(reader, start, end, i, value, negative, number, generic);
    } else {
      return Ok(DecNum(BigDec(value, 0)));
    }
  }

  /** A decimal point after the digits: the fraction follows. */
  lemma PointThenFraction(t: ReaderState, start: int, end: int, i: int, value: int,
                          negative: bool, number: bool, generic: Generic)
    requires t.Valid() && 0 <= start <= i < end <= |t.buf| && IsLong(value) && t.buf[i] == '.' as int
    ensures IntegerDigits(t, start, end, i, value, negative, number, generic)
         == FractionDigits(t, start, end, i + 1, i + 1, value, negative, generic)
  {
  }

  /** An exponent mark right after the digits: the digits are the unscaled
      value and the exponent sets the scale. */
  method ExponentAfterDigits(reader: JsonReader.JsonReader, start: int, end: int, i: int, value: int,
                             negative: bool, number: bool, generic: Generic) returns (r: Result<Num>)
    requires reader.Valid() && 0 <= start <= i < end <= reader.buffer.Length && IsLong(value)
    requires IsExponentMark(reader.buffer[i])
    modifies reader
    ensures reader.Valid() && reader.Agrees(r, IntegerDigits(old(reader.State()), start, end, i, value, negative, number, generic))
  {
    var exp :- ParseExponent(reader, start, end, i + 1, generic);
    return Ok(DecNum(BigDec(value, Int32(-exp))));
  }

  /** The sign dispatch of `deserializeDecimal` and `deserializeNumber`. */
  method ParseMantissa(reader: JsonReader.JsonReader, start: int, end: int, number: bool, generic: Generic) returns (r: Result<Num>)
    requires reader.Valid() && 0 <= start < reader.buffer.Length && end <= reader.buffer.Length
    modifies reader
    ensures reader.Valid() && reader.Agrees(r, Mantissa(old(reader.State()), start, end, number, generic))
  {
    var ch := reader.buffer[start];
    if ch == MINUS {
      r := ParseIntegerDigits(reader, start, end, start + 1, true, number, generic);
    } else if ch == PLUS {
      r := ParseIntegerDigits(reader, start, end, start + 1, false, number, generic);
    } else {
      r := ParseIntegerDigits(reader, start, end, start, false, number, generic);
    }
  }

  /** The unquoted part of `deserializeDecimal` and `deserializeNumber`.
      `readLongNumber` at the end of a byte input copies the rest of the
      input with `prepareBuffer`; before it, it would read past the end. */
  method DeserializeNumberToken(reader: JsonReader.JsonReader, number: bool, generic: Generic) returns (r: Result<Num>)
    requires reader.Valid()
    modifies reader
    ensures reader.Valid() && reader.Agrees(r, ReadNumberToken(old(reader.State()), number, generic))
  {
    var start := reader.ScanNumber();
    var end := reader.currentIndex;
    if start < 0 {
      return Err(IndexOutOfBounds);
    }
    var len := end - start;
    if len > 18 {
      end := reader.FindNonWhitespace(end);
      len := end - start;
      if end == reader.length || len > 18 {
        if end == reader.length && reader.currentIndex != reader.length {
          return Err(IOError("Unexpected end of JSON input"));
        }
        var g :- ParseNumberGeneric(reader, start, end, generic);
        return Ok(if number then TryLongFromBigDecimal(g) else DecNum(g));
      }
    }
    r := ParseMantissa(reader, start, end, number, generic);
  }

  /** `deserializeDecimal`. */
  method DeserializeDecimal(reader: JsonReader.JsonReader, generic: Generic) returns (r: Result<BigDec>)
    requires reader.Valid()
    modifies reader
    ensures reader.Valid() && reader.Agrees(r, ReadDecimal(old(reader.State()), generic))
  {
    if reader.last == QUOTE {
      var chars :- reader.ParseString();
      match generic(chars)
      case None =>
        return Err(IOError(PARSE_ERROR));
      case Some(d) =>
        return Ok(d);
    }
    var n :- DeserializeNumberToken(reader, false, generic);
    return Ok(n.decimal);
  }

  /** `deserializeNumber`. */
  method DeserializeNumber(reader: JsonReader.JsonReader, generic: Generic) returns (r: Result<Num>)
    requires reader.Valid()
    modifies reader
    ensures reader.Valid() && reader.Agrees(r, ReadNumber(old(reader.State()), generic))
  {
    r := DeserializeNumberToken(reader, true, generic);
  }

  /** `Arrays.copyOf(a, n)`: the first `n` elements of `a`, padded with
      zeros. */
  method CopyOf(a: array<int>, n: int) returns (b: array<int>)
    requires 0 <= n
    ensures fresh(b) && b.Length == n
    ensures forall k | 0 <= k < n :: b[k] == if k < a.Length then a[k] else 0
  {
    b := new int[n](_ => 0);
    var m := if n < a.Length then n else a.Length;
    var k := 0;
    while k < m
      invariant 0 <= k <= m
      invariant forall j | 0 <= j < n :: b[j] == if j < k then a[j] else 0
    {
      b[k] := a[k];
      k := k + 1;
    }
  }

  /** `buffer[i++] = x` after the buffer has been doubled by
      `Arrays.copyOf` if it was full. */
  method Store(buffer: array<int>, i: int, x: int) returns (b: array<int>)
    requires 0 < buffer.Length && 0 <= i <= buffer.Length
    modifies buffer
    ensures b == buffer || fresh(b)
    ensures i < b.Length && b[..i + 1] == old(buffer[..i]) + [x]
  {
    b := buffer;
    if i == buffer.Length {
      b := CopyOf(buffer, buffer.Length * 2);
    }
    b[i] := x;
  }

  /** One turn of the array loop, entered on a comma. */
  method ReadNextIntegral(reader: JsonReader.JsonReader, wide: bool, generic: Generic, tmpLength: int) returns (r: Result<(int, Byte)>)
    requires reader.Valid()
    modifies reader
    ensures reader.Valid() && reader.Agrees(r, NextIntegral(old(reader.State()), wide, generic, tmpLength))
  {
    var _ :- reader.GetNextToken();
    var e :- DeserializeIntegral(reader, wide, generic, tmpLength);
    var token :- reader.GetNextToken();
    return Ok((e, token));
  }

  /** The loop of the array readers, from the token after the first
      element; `buffer[..i]` holds the elements read so far. */
  method ReadMoreIntegrals(reader: JsonReader.JsonReader, buffer0: array<int>, i0: int, token0: Byte,
                           wide: bool, generic: Generic, tmpLength: int) returns (r: Result<array<int>>)
    requires reader.Valid() && 0 < i0 <= buffer0.Length
    modifies reader, buffer0
    ensures reader.Valid()
    ensures match MoreIntegrals(old(reader.State()), token0, wide, generic, tmpLength, old(buffer0[..i0]))
      case Ok(o) => r.Ok? && fresh(r.value) && r.value[..] == o.value && reader.State() == o.st
      case Err(e) => r == Err(e)
  {
    var buffer, i, token := buffer0, i0, token0;
    ghost var acc := buffer0[..i0];
    ghost var goal := MoreIntegrals(reader.State(), token0, wide, generic, tmpLength, acc);
    while token == COMMA
      invariant reader.Valid() && 0 < i <= buffer.Length && buffer[..i] == acc
      invariant buffer == buffer0 || fresh(buffer)
      invariant goal == MoreIntegrals(reader.State(), token, wide, generic, tmpLength, acc)
      decreases reader.buffer.Length - reader.currentIndex
    {
      var n :- ReadNextIntegral(reader, wide, generic, tmpLength);
      buffer := Store(buffer, i, n.0);
      acc := acc + [n.0];
      i, token := i + 1, n.1;
    }
    var _ :- reader.CheckArrayEnd();
    var result := CopyOf(buffer, i);
    return Ok(result);
  }

  /** `deserializeIntArray` (`wide` false) and `deserializeLongArray`
      (`wide` true): the elements go into a buffer of 4 that doubles
      whenever it is full, and the result is a copy of its filled part. */
  method DeserializeIntegralArray(reader: JsonReader.JsonReader, wide: bool, generic: Generic, tmpLength: int) returns (r: Result<array<int>>)
    requires reader.Valid()
    modifies reader
    ensures reader.Valid()
    ensures match IntegralArray(old(reader.State()), wide, generic, tmpLength)
      case Ok(o) => r.Ok? && fresh(r.value) && r.value[..] == o.value && reader.State() == o.st
      case Err(e) => r == Err(e)
  {
    if reader.last == ARRAY_END {
      var empty := new int[0];
      return Ok(empty);
    }
    ghost var s0 := reader.State();
    var buffer := new int[4](_ => 0);
    var first :- DeserializeIntegral(reader, wide, generic, tmpLength);
    buffer[0] := first;
    assert buffer[..1] == [first];
    var token :- reader.GetNextToken();
    r := ReadMoreIntegrals(reader, buffer, 1, token, wide, generic, tmpLength);
  }
}

/** What the number readers promise: a number written by the serializer is
    read back exactly, the integer loops end at trailing whitespace, a
    decimal's scale counts its fraction digits less its exponent, and a
    `BigDecimal` narrows to a `Long` exactly when it is a `long`. */
module NumberProperties {
  import opened Java
  import opened DecimalText
  import opened ReaderSpec
  import opened NumberReading

  /** The value of a magnitude with its sign. */
  function Signed(negative: bool, x: int): (r: int)
    ensures negative ==> r == -x
    ensures !negative ==> r == x
  {
    if negative then -x else x
  }

  // ---------------------------------------------------------------------
  // Digits

  /** Accumulating digits never makes a value smaller. */
  lemma {:induction false} AccumulateAtLeast(v: int, s: seq<int>)
    requires 0 <= v && AllDigits(s)
    ensures v <= Accumulate(v, s)
    decreases |s|
  {
    if s != [] {
      assert AllDigits(s[1..]) by {
        forall k | 0 <= k < |s| - 1 ensures IsDigit(s[1..][k]) {
          assert s[1..][k] == s[k + 1];
        }
      }
      AccumulateAtLeast(v * 10 + s[0] - '0' as int, s[1..]);
    }
  }

  /** `n` digits are worth less than `10^n`. */
  lemma {:induction false} DigitsValueBelow(s: seq<int>)
    requires AllDigits(s)
    ensures 0 <= DigitsValue(s) < Pow10(|s|)
    decreases |s|
  {
    if s != [] {
      var init := s[..|s| - 1];
      assert s == init + [s[|s| - 1]];
      assert AllDigits(init) by {
        forall k | 0 <= k < |init| ensures IsDigit(init[k]) {
          assert init[k] == s[k];
        }
      }
      DigitsValueBelow(init);
      AccumulateSnoc(0, init, s[|s| - 1]);
    }
  }

  /** Splitting the first digit off a run of digits. */
  lemma RunTail(buf: seq<Byte>, i: int, j: int, a: int)
    requires 0 <= i < j <= |buf| && AllDigits(buf[i..j])
    ensures IsDigit(buf[i]) && AllDigits(buf[i + 1..j])
    ensures Accumulate(a, buf[i..j]) == Accumulate(a * 10 + buf[i] - '0' as int, buf[i + 1..j])
  {
    var rest := buf[i..j];
    assert rest[0] == buf[i] && rest[1..] == buf[i + 1..j];
    assert forall k | i + 1 <= k < j :: buf[k] == rest[k - i];
  }

  /** `scanNumber` stops on the first `,`, `}` or `]`, or at the end of
      the input. */
  lemma {:induction false} NumberEndAt(buf: seq<Byte>, length: int, i: int, j: int)
    requires 0 <= i <= j <= length <= |buf|
    requires forall k | i <= k < j :: !IsNumberEnd(buf[k])
    requires j == length || IsNumberEnd(buf[j])
    ensures NumberEnd(buf, length, i) == j
    decreases j - i
  {
    if i < j {
      NumberEndAt(buf, length, i + 1, j);
    }
  }

  // ---------------------------------------------------------------------
  // The int and long loops

  /** One digit of the loop, when the accumulated value still fits. */
  lemma DigitLoopStep(t: ReaderState, start: int, end: int, i: int, a: int,
                      negative: bool, wide: bool, generic: Generic)
    requires t.Valid() && 0 <= start <= i < end <= |t.buf| && 0 <= a && IsDigit(t.buf[i])
    requires InRange(wide, Signed(negative, a * 10 + t.buf[i] - '0' as int))
    ensures InRange(wide, Signed(negative, a))
    ensures DigitLoop(t, start, end, i, Signed(negative, a), negative, wide, generic)
         == DigitLoop(t, start, end, i + 1, Signed(negative, a * 10 + t.buf[i] - '0' as int), negative, wide, generic)
  {
  }

  /** Over digits whose value fits the integer, the loop accumulates them
      exactly: no wrap-around and no overflow report. */
  lemma {:induction false} DigitLoopPrefix(t: ReaderState, start: int, end: int, i: int, j: int, a: int,
                                           negative: bool, wide: bool, generic: Generic)
    requires t.Valid() && 0 <= start <= i <= j <= end <= |t.buf| && 0 <= a
    requires AllDigits(t.buf[i..j])
    requires InRange(wide, Signed(negative, Accumulate(a, t.buf[i..j])))
    ensures InRange(wide, Signed(negative, a))
    ensures DigitLoop(t, start, end, i, Signed(negative, a), negative, wide, generic)
         == DigitLoop(t, start, end, j, Signed(negative, Accumulate(a, t.buf[i..j])), negative, wide, generic)
    decreases j - i
  {
    var rest := t.buf[i..j];
    if i < j {
      var next := a * 10 + t.buf[i] - '0' as int;
      RunTail(t.buf, i, j, a);
      DigitLoopPrefix(t, start, end, i + 1, j, next, negative, wide, generic);
      DigitLoopStep(t, start, end, i, a, negative, wide, generic);
    } else {
      assert rest == [];
    }
  }

  /** A run of digits to the end of the token, whose value fits, is read
      as exactly that value. */
  lemma DigitLoopDigits(t: ReaderState, start: int, end: int, i: int, negative: bool, wide: bool, generic: Generic)
    requires t.Valid() && 0 <= start <= i <= end <= |t.buf|
    requires AllDigits(t.buf[i..end])
    requires InRange(wide, Signed(negative, DigitsValue(t.buf[i..end])))
    ensures DigitLoop(t, start, end, i, 0, negative, wide, generic) == Ok(Out(Signed(negative, DigitsValue(t.buf[i..end])), t))
  {
    DigitLoopPrefix(t, start, end, i, end, 0, negative, wide, generic);
  }

  /** Digits followed by nothing but whitespace are read as the digits:
      `allWhitespace` ends the loop without the `BigDecimal` parser. */
  lemma DigitLoopTrailingWhitespace(t: ReaderState, start: int, end: int, i: int, j: int,
                                    negative: bool, wide: bool, generic: Generic)
    requires t.Valid() && 0 <= start <= i <= j < end <= |t.buf|
    requires AllDigits(t.buf[i..j]) && AllWhitespace(t.buf, j, end)
    requires InRange(wide, Signed(negative, DigitsValue(t.buf[i..j])))
    ensures DigitLoop(t, start, end, i, 0, negative, wide, generic) == Ok(Out(Signed(negative, DigitsValue(t.buf[i..j])), t))
  {
    DigitLoopPrefix(t, start, end, i, j, 0, negative, wide, generic);
    assert IsWhitespace(t.buf[j]);
  }

  /** An unquoted token from `last` up to index `e`, where a `,`, `}`,
      `]` or the end of the input stops `scanNumber`, goes to the loop
      for its sign. */
  lemma ReadIntegralToken(s: ReaderState, e: int, wide: bool, generic: Generic, tmpLength: int)
    requires s.Valid() && 1 <= s.currentIndex <= e <= s.length
    requires s.last == s.buf[s.currentIndex - 1] != QUOTE
    requires forall k | s.currentIndex <= k < e :: !IsNumberEnd(s.buf[k])
    requires e == s.length || IsNumberEnd(s.buf[e])
    ensures ScanNumber(s).value == s.currentIndex - 1 && ScanNumber(s).st.currentIndex == e
    ensures var p, t := s.currentIndex - 1, ScanNumber(s).st;
      ReadIntegral(s, wide, generic, tmpLength)
        == if t.buf[p] == MINUS then DigitLoop(t, p, e, p + 1, 0, true, wide, generic)
           else if t.buf[p] == PLUS then DigitLoop(t, p, e, p + 1, 0, false, wide, generic)
           else DigitLoop(t, p, e, p, 0, false, wide, generic)
  {
    NumberEndAt(s.buf, s.length, s.currentIndex, e);
  }

  /** What the serializer writes for `v`, `Decimal(v)`, sits at the token
      that `last` starts and ends at a `,`, `}`, `]` or the end of the
      input. */
  predicate DecimalToken(s: ReaderState, v: int)
    requires s.Valid()
  {
    var p, d := s.currentIndex - 1, Decimal(v);
    && 1 <= s.currentIndex && p + |d| <= s.length
    && s.buf[p..p + |d|] == d && s.last == d[0]
    && (p + |d| == s.length || IsNumberEnd(s.buf[p + |d|]))
  }

  /** Round trip: `deserializeInt` and `deserializeLong` read back what
      `serialize(int)` and `serialize(long)` write, and the cursor stops
      on the byte after it. */
  lemma ReadIntegralDecimal(s: ReaderState, v: int, wide: bool, generic: Generic, tmpLength: int)
    requires s.Valid() && InRange(wide, v) && DecimalToken(s, v)
    ensures ScanNumber(s).st.currentIndex == s.currentIndex - 1 + |Decimal(v)|
    ensures ReadIntegral(s, wide, generic, tmpLength) == Ok(Out(v, ScanNumber(s).st))
  {
    var p, d := s.currentIndex - 1, Decimal(v);
    var e := p + |d|;
    assert forall k | s.currentIndex <= k < e :: s.buf[k] == d[k - p];
    ReadIntegralToken(s, e, wide, generic, tmpLength);
    DecimalDigitsLoop(ScanNumber(s).st, p, e, v, wide, generic);
  }

  /** The loop for the sign of `Decimal(v)` reads its digits as `v`. */
  lemma DecimalDigitsLoop(t: ReaderState, p: int, e: int, v: int, wide: bool, generic: Generic)
    requires t.Valid() && 0 <= p && e == p + |Decimal(v)| <= |t.buf| && t.buf[p..e] == Decimal(v) && InRange(wide, v)
    ensures (if t.buf[p] == MINUS then DigitLoop(t, p, e, p + 1, 0, true, wide, generic)
             else if t.buf[p] == PLUS then DigitLoop(t, p, e, p + 1, 0, false, wide, generic)
             else DigitLoop(t, p, e, p, 0, false, wide, generic)) == Ok(Out(v, t))
  {
    var d := Decimal(v);
    var m := if v < 0 then -v else v;
    var i := if v < 0 then p + 1 else p;
    assert t.buf[p] == d[0];
    assert t.buf[i..e] == DecimalDigits(m) by {
      if v < 0 {
        assert t.buf[p + 1..e] == d[1..];
      }
    }
    DecimalDigitsValue(m);
    DigitLoopDigits(t, p, e, i, v < 0, wide, generic);
  }

  /** A byte that is neither a digit nor the start of trailing whitespace
      hands the whole token to the `BigDecimal` parser: a value with a
      fractional scale is refused, any other is narrowed to the integer's
      width. */
  lemma DigitLoopFallback(t: ReaderState, start: int, end: int, i: int, j: int,
                          negative: bool, wide: bool, generic: Generic)
    requires t.Valid() && 0 <= start <= i <= j < end <= |t.buf|
    requires AllDigits(t.buf[i..j]) && !IsDigit(t.buf[j]) && !AllWhitespace(t.buf, j, end)
    requires InRange(wide, Signed(negative, DigitsValue(t.buf[i..j])))
    ensures var r := DigitLoop(t, start, end, i, 0, negative, wide, generic);
      match generic(Chars(t.buf[start..end]))
      case None => r == Err(IOError(PARSE_ERROR))
      case Some(d) =>
        if d.scale <= 0 then r == Ok(Out(Wrap(wide, Integral(d)), PrepareBuffer(t, start)))
        else r.Err? && r.error == IOError(if wide then "Error parsing long number. Found decimal value"
                                          else "Error parsing int number. Found decimal value")
  {
    DigitLoopPrefix(t, start, end, i, j, 0, negative, wide, generic);
  }

  // ---------------------------------------------------------------------
  // The sign-change test

  /** The digits of `4294967296`. */
  const WRAPPING_DIGITS: seq<Byte> := [52, 50, 57, 52, 57, 54, 55, 50, 57, 54]

  /** The input `4294967296`, with the reader's cursor after its first
      byte. */
  function WrappingInput(): (s: ReaderState)
    ensures s.Valid() && s.buf == WRAPPING_DIGITS
  {
    ReaderState(WRAPPING_DIGITS, 10, 1, 52, 0, 0, 0, 1)
  }

  /** The first nine digits of `4294967296` fit an `int`. */
  lemma WrappingPrefix()
    ensures AllDigits(WRAPPING_DIGITS[0..9]) && Accumulate(0, WRAPPING_DIGITS[0..9]) == 429496729
  {
    assert WRAPPING_DIGITS[0..9] == [52, 50, 57, 52, 57, 54, 55, 50, 57];
    assert Accumulate(0, [52, 50, 57, 52, 57, 54, 55, 50, 57]) == 429496729;
  }

  /** All ten digits of `4294967296` do not. */
  lemma WrappingValue()
    ensures AllDigits(WRAPPING_DIGITS[0..10]) && Accumulate(0, WRAPPING_DIGITS[0..10]) == 4294967296
  {
    assert WRAPPING_DIGITS[0..10] == [52, 50, 57, 52, 57, 54, 55, 50, 57, 54];
    assert Accumulate(0, [52, 50, 57, 52, 57, 54, 55, 50, 57, 54]) == 4294967296;
  }

  /** The positive int loop over the digits of `4294967296` ends with 0:
      `429496729 * 10 + 6` is exactly `2^32`, which wraps to 0, and 0 is
      not negative. */
  lemma WrappingLoop(t: ReaderState, generic: Generic)
    requires t.Valid() && t.buf == WRAPPING_DIGITS
    ensures DigitLoop(t, 0, 10, 0, 0, false, false, generic) == Ok(Out(0, t))
  {
    WrappingPrefix();
    DigitLoopPrefix(t, 0, 10, 0, 9, 0, false, false, generic);
    DivModUnique(4294967296 - INT_MIN, 0x1_0000_0000, 1, 0x8000_0000);
    assert Wrap(false, 429496729 * 10 + 6) == 0;
    assert DigitLoop(t, 0, 10, 9, 429496729, false, false, generic) == DigitLoop(t, 0, 10, 10, 0, false, false, generic);
  }

  /** `parsePositiveInt` misses this overflow: the text `4294967296` is
      read as the `int` 0. */
  lemma WrappedIntIsZero(generic: Generic, tmpLength: int)
    ensures ReadIntegral(WrappingInput(), false, generic, tmpLength).Ok?
    ensures ReadIntegral(WrappingInput(), false, generic, tmpLength).value.value == 0
  {
    var s := WrappingInput();
    ReadIntegralToken(s, 10, false, generic, tmpLength);
    WrappingLoop(ScanNumber(s).st, generic);
  }

  /** The loop as evidently intended: each digit is accumulated exactly and
      an overflow is reported as soon as the value leaves the integer's
      range. */
  function CheckedDigitLoop(t: ReaderState, start: int, end: int, i: int, value: int,
                            negative: bool, wide: bool, generic: Generic): (r: Result<Out<int>>)
    requires t.Valid() && 0 <= start <= i && end <= |t.buf| && InRange(wide, value)
    ensures r.Ok? ==> InRange(wide, r.value.value)
    decreases end - i
  {
    if i >= end then Ok(Out(value, t))
    else
      var ind := t.buf[i] - '0' as int;
      if ind < 0 || ind > 9 then
        if AllWhitespace(t.buf, i, end) then Ok(Out(value, t))
        else IntegralFromGeneric(t, start, end, wide, generic)
      else
        var v := if negative then value * 10 - ind else value * 10 + ind;
        if !InRange(wide, v) then Err(IOError(OverflowMessage(wide)))
        else CheckedDigitLoop(t, start, end, i + 1, v, negative, wide, generic)
  }

  /** Over a run of digits to the end of the token, the checked loop gives
      the digits' value exactly when it fits the integer, and the overflow
      error exactly when it does not. */
  lemma {:induction false} CheckedDigitLoopExact(t: ReaderState, start: int, end: int, i: int, a: int,
                                                 negative: bool, wide: bool, generic: Generic)
    requires t.Valid() && 0 <= start <= i <= end <= |t.buf| && 0 <= a
    requires AllDigits(t.buf[i..end]) && InRange(wide, Signed(negative, a))
    ensures CheckedDigitLoop(t, start, end, i, Signed(negative, a), negative, wide, generic)
         == if InRange(wide, Signed(negative, Accumulate(a, t.buf[i..end])))
            then Ok(Out(Signed(negative, Accumulate(a, t.buf[i..end])), t))
            else Err(IOError(OverflowMessage(wide)))
    decreases end - i
  {
    if i < end {
      var ind := t.buf[i] - '0' as int;
      var next := a * 10 + ind;
      RunTail(t.buf, i, end, a);
      AccumulateAtLeast(next, t.buf[i + 1..end]);
      assert Signed(negative, a) * 10 + Signed(negative, ind) == Signed(negative, next);
      if InRange(wide, Signed(negative, next)) {
        CheckedDigitLoopExact(t, start, end, i + 1, next, negative, wide, generic);
      }
    }
  }

  /** The as-written loop agrees with the checked one wherever the value
      fits; they differ only on overflow. */
  lemma DigitLoopAgreesWhenInRange(t: ReaderState, start: int, end: int, i: int,
                                   negative: bool, wide: bool, generic: Generic)
    requires t.Valid() && 0 <= start <= i <= end <= |t.buf| && AllDigits(t.buf[i..end])
    requires CheckedDigitLoop(t, start, end, i, 0, negative, wide, generic).Ok?
    ensures DigitLoop(t, start, end, i, 0, negative, wide, generic) == CheckedDigitLoop(t, start, end, i, 0, negative, wide, generic)
  {
    CheckedDigitLoopExact(t, start, end, i, 0, negative, wide, generic);
    DigitLoopDigits(t, start, end, i, negative, wide, generic);
  }

  /** The checked loop reports `4294967296` as an overflow. */
  lemma CheckedRejectsWrap(t: ReaderState, generic: Generic)
    requires t.Valid() && t.buf == WRAPPING_DIGITS
    ensures CheckedDigitLoop(t, 0, 10, 0, 0, false, false, generic) == Err(IOError(OverflowMessage(false)))
  {
    WrappingValue();
    CheckedDigitLoopExact(t, 0, 10, 0, 0, false, false, generic);
  }

  // ---------------------------------------------------------------------
  // Decimals

  /** A token of at most 18 bytes from `last` up to index `e` goes to the
      digit loops for its sign, without the `BigDecimal` parser. */
  lemma ReadNumberTokenShort(s: ReaderState, e: int, number: bool, generic: Generic)
    requires s.Valid() && 1 <= s.currentIndex <= e <= s.length && e - (s.currentIndex - 1) <= 18
    requires forall k | s.currentIndex <= k < e :: !IsNumberEnd(s.buf[k])
    requires e == s.length || IsNumberEnd(s.buf[e])
    ensures ScanNumber(s).value == s.currentIndex - 1 && ScanNumber(s).st.currentIndex == e
    ensures ReadNumberToken(s, number, generic) == Mantissa(ScanNumber(s).st, s.currentIndex - 1, e, number, generic)
  {
    NumberEndAt(s.buf, s.length, s.currentIndex, e);
  }

  /** One digit before the decimal point, when the value still fits a
      `long`. */
  lemma IntegerDigitsExactStep(t: ReaderState, start: int, end: int, i: int, a: int,
                          negative: bool, number: bool, generic: Generic)
    requires t.Valid() && 0 <= start <= i < end <= |t.buf| && 0 <= a && IsDigit(t.buf[i])
    requires a * 10 + t.buf[i] - '0' as int <= LONG_MAX
    ensures IsLong(Signed(negative, a))
    ensures IntegerDigits(t, start, end, i, Signed(negative, a), negative, number, generic)
         == IntegerDigits(t, start, end, i + 1, Signed(negative, a * 10 + t.buf[i] - '0' as int), negative, number, generic)
  {
  }

  /** Digits before the decimal point whose value fits a `long` are
      accumulated exactly. */
  lemma {:induction false} IntegerDigitsRun(t: ReaderState, start: int, end: int, i: int, j: int, a: int,
                                            negative: bool, number: bool, generic: Generic)
    requires t.Valid() && 0 <= start <= i <= j <= end <= |t.buf| && 0 <= a
    requires AllDigits(t.buf[i..j]) && 0 <= Accumulate(a, t.buf[i..j]) <= LONG_MAX
    ensures IsLong(Signed(negative, a))
    ensures IntegerDigits(t, start, end, i, Signed(negative, a), negative, number, generic)
         == IntegerDigits(t, start, end, j, Signed(negative, Accumulate(a, t.buf[i..j])), negative, number, generic)
    decreases j - i
  {
    var rest := t.buf[i..j];
    AccumulateAtLeast(a, rest);
    if i < j {
      var next := a * 10 + t.buf[i] - '0' as int;
      RunTail(t.buf, i, j, a);
      AccumulateAtLeast(next, t.buf[i + 1..j]);
      IntegerDigitsRun(t, start, end, i + 1, j, next, negative, number, generic);
      IntegerDigitsExactStep(t, start, end, i, a, negative, number, generic);
    } else {
      assert rest == [];
    }
  }

  /** One digit after the decimal point, when the value still fits a
      `long`. */
  lemma FractionDigitsExactStep(t: ReaderState, start: int, end: int, dp: int, i: int, a: int,
                           negative: bool, generic: Generic)
    requires t.Valid() && 0 <= start < dp <= i < end <= |t.buf| && 0 <= a && IsDigit(t.buf[i])
    requires a * 10 + t.buf[i] - '0' as int <= LONG_MAX
    ensures IsLong(Signed(negative, a))
    ensures FractionDigits(t, start, end, dp, i, Signed(negative, a), negative, generic)
         == FractionDigits(t, start, end, dp, i + 1, Signed(negative, a * 10 + t.buf[i] - '0' as int), negative, generic)
  {
  }

  /** Digits after the decimal point whose value, with the digits before
      it, fits a `long` are accumulated exactly. */
  lemma {:induction false} FractionDigitsRun(t: ReaderState, start: int, end: int, dp: int, i: int, j: int, a: int,
                                             negative: bool, generic: Generic)
    requires t.Valid() && 0 <= start < dp <= i <= j <= end <= |t.buf| && 0 <= a
    requires AllDigits(t.buf[i..j]) && 0 <= Accumulate(a, t.buf[i..j]) <= LONG_MAX
    ensures IsLong(Signed(negative, a))
    ensures FractionDigits(t, start, end, dp, i, Signed(negative, a), negative, generic)
         == FractionDigits(t, start, end, dp, j, Signed(negative, Accumulate(a, t.buf[i..j])), negative, generic)
    decreases j - i
  {
    var rest := t.buf[i..j];
    AccumulateAtLeast(a, rest);
    if i < j {
      var next := a * 10 + t.buf[i] - '0' as int;
      RunTail(t.buf, i, j, a);
      AccumulateAtLeast(next, t.buf[i + 1..j]);
      FractionDigitsRun(t, start, end, dp, i + 1, j, next, negative, generic);
      FractionDigitsExactStep(t, start, end, dp, i, a, negative, generic);
    } else {
      assert rest == [];
    }
  }

  /** At most 18 digits fit a `long`. */
  lemma ShortDigitsFit(s: seq<int>)
    requires AllDigits(s) && |s| <= 18
    ensures 0 <= DigitsValue(s) <= LONG_MAX
  {
    DigitsValueBelow(s);
    Pow10Monotone(|s|, 18);
    Pow10Of18();
  }

  /** The text of a plain decimal: an optional minus, the integer digits,
      a decimal point and the fraction digits. */
  function PlainDecimal(negative: bool, whole: seq<Byte>, fraction: seq<Byte>): seq<Byte> {
    (if negative then [MINUS] else []) + whole + ['.' as int] + fraction
  }

  /** `token` sits at the token that `last` starts and ends at a `,`, `}`,
      `]` or the end of the input. */
  predicate TokenAt(s: ReaderState, token: seq<Byte>)
    requires s.Valid()
  {
    var p := s.currentIndex - 1;
    && 1 <= s.currentIndex && 1 <= |token| && p + |token| <= s.length
    && s.buf[p..p + |token|] == token && s.last == token[0]
    && (p + |token| == s.length || IsNumberEnd(s.buf[p + |token|]))
  }

  /** Where the parts of a plain decimal lie in its text. */
  lemma PlainDecimalParts(negative: bool, whole: seq<Byte>, fraction: seq<Byte>)
    ensures var token, i := PlainDecimal(negative, whole, fraction), if negative then 1 else 0;
      && |token| == i + |whole| + 1 + |fraction|
      && token[i..i + |whole|] == whole && token[i + |whole|] == '.' as int && token[i + |whole| + 1..] == fraction
      && (negative ==> token[0] == MINUS)
  {
    var sign: seq<Byte> := if negative then [MINUS] else [];
    assert PlainDecimal(negative, whole, fraction) == sign + whole + (['.' as int] + fraction);
  }

  /** A plain decimal holds no `,`, `}` or `]`. */
  lemma PlainDecimalNoEnd(negative: bool, whole: seq<Byte>, fraction: seq<Byte>)
    requires AllDigits(whole) && AllDigits(fraction)
    ensures var token := PlainDecimal(negative, whole, fraction);
      forall k | 0 <= k < |token| :: !IsNumberEnd(token[k])
  {
    var token := PlainDecimal(negative, whole, fraction);
    var i := if negative then 1 else 0;
    PlainDecimalParts(negative, whole, fraction);
    forall k | 0 <= k < |token| ensures !IsNumberEnd(token[k]) {
      if i <= k < i + |whole| {
        assert token[k] == whole[k - i];
      } else if i + |whole| < k {
        assert token[k] == fraction[k - i - |whole| - 1];
      }
    }
  }

  /** Where the parts of a plain decimal lie in the input. */
  lemma PlainDecimalLayout(s: ReaderState, negative: bool, whole: seq<Byte>, fraction: seq<Byte>)
    requires s.Valid() && AllDigits(whole) && AllDigits(fraction)
    requires TokenAt(s, PlainDecimal(negative, whole, fraction))
    ensures var p := s.currentIndex - 1;
      var i := if negative then p + 1 else p;
      var dot := i + |whole|;
      var e := dot + 1 + |fraction|;
      && e == p + |PlainDecimal(negative, whole, fraction)|
      && s.buf[i..dot] == whole && s.buf[dot] == '.' as int && s.buf[dot + 1..e] == fraction
      && (negative ==> s.last == MINUS)
      && (forall k | s.currentIndex <= k < e :: !IsNumberEnd(s.buf[k]))
  {
    var token := PlainDecimal(negative, whole, fraction);
    var p := s.currentIndex - 1;
    var e := p + |token|;
    PlainDecimalParts(negative, whole, fraction);
    PlainDecimalNoEnd(negative, whole, fraction);
    assert s.buf[p..e] == token;
    assert forall k | p <= k < e :: s.buf[k] == token[k - p];
  }

  /** The digits before the point (after an optional minus at `p`) lead
      to the fraction loop with their value. */
  lemma WholeThenPoint(t: ReaderState, p: int, dot: int, e: int, negative: bool, number: bool, generic: Generic)
    requires t.Valid() && 0 <= p && (if negative then p + 1 else p) < dot < e <= |t.buf|
    requires negative ==> t.buf[p] == MINUS
    requires var i := if negative then p + 1 else p;
      AllDigits(t.buf[i..dot]) && t.buf[dot] == '.' as int && DigitsValue(t.buf[i..dot]) <= LONG_MAX
    ensures var i := if negative then p + 1 else p;
      IsLong(Signed(negative, DigitsValue(t.buf[i..dot])))
      && Mantissa(t, p, e, number, generic)
         == FractionDigits(t, p, e, dot + 1, dot + 1, Signed(negative, DigitsValue(t.buf[i..dot])), negative, generic)
  {
    var i := if negative then p + 1 else p;
    var whole := t.buf[i..dot];
    var w := DigitsValue(whole);
    assert IsDigit(t.buf[i]) by { assert t.buf[i] == whole[0]; }
    AccumulateAtLeast(0, whole);
    IntegerDigitsRun(t, p, e, i, dot, 0, negative, number, generic);
    assert Mantissa(t, p, e, number, generic) == IntegerDigits(t, p, e, i, 0, negative, number, generic);
    PointThenFraction(t, p, e, dot, Signed(negative, w), negative, number, generic);
  }

  /** The digit loops over `whole.fraction` (after an optional minus at
      `p`), up to index `j`, accumulate the digits on both sides of the
      point into one unscaled value. */
  lemma WholeAndFraction(t: ReaderState, p: int, dot: int, j: int, e: int, negative: bool, number: bool, generic: Generic)
    requires t.Valid() && 0 <= p && (if negative then p + 1 else p) < dot < j <= e <= |t.buf|
    requires negative ==> t.buf[p] == MINUS
    requires var i := if negative then p + 1 else p;
      AllDigits(t.buf[i..dot]) && t.buf[dot] == '.' as int && AllDigits(t.buf[dot + 1..j])
      && DigitsValue(t.buf[i..dot] + t.buf[dot + 1..j]) <= LONG_MAX
    ensures var i := if negative then p + 1 else p;
      IsLong(Signed(negative, DigitsValue(t.buf[i..dot] + t.buf[dot + 1..j])))
      && Mantissa(t, p, e, number, generic)
         == FractionDigits(t, p, e, dot + 1, j, Signed(negative, DigitsValue(t.buf[i..dot] + t.buf[dot + 1..j])), negative, generic)
  {
    var i := if negative then p + 1 else p;
    var whole, fraction := t.buf[i..dot], t.buf[dot + 1..j];
    var w, v := DigitsValue(whole), DigitsValue(whole + fraction);
    AccumulateAppend(0, whole, fraction);
    AccumulateAtLeast(0, whole);
    AccumulateAtLeast(w, fraction);
    WholeThenPoint(t, p, dot, e, negative, number, generic);
    FractionDigitsRun(t, p, e, dot + 1, dot + 1, j, w, negative, generic);
  }

  /** The digit loops over `whole.fraction` (after an optional minus at
      `p`) build the unscaled value from both runs of digits and the scale
      from the length of the second. */
  lemma MantissaPlain(t: ReaderState, p: int, dot: int, e: int, negative: bool, number: bool, generic: Generic)
    requires t.Valid() && 0 <= p && (if negative then p + 1 else p) < dot < e <= |t.buf|
    requires negative ==> t.buf[p] == MINUS
    requires var i := if negative then p + 1 else p;
      AllDigits(t.buf[i..dot]) && t.buf[dot] == '.' as int && AllDigits(t.buf[dot + 1..e])
      && DigitsValue(t.buf[i..dot] + t.buf[dot + 1..e]) <= LONG_MAX
    ensures var i := if negative then p + 1 else p;
      Mantissa(t, p, e, number, generic)
        == Ok(Out(DecNum(BigDec(Signed(negative, DigitsValue(t.buf[i..dot] + t.buf[dot + 1..e])), e - dot - 1)), t))
  {
    WholeAndFraction(t, p, dot, e, e, negative, number, generic);
  }

  /** `deserializeDecimal` of a plain decimal of at most 18 bytes: the
      unscaled value is the digits on both sides of the point, with the
      sign, and the scale is the number of fraction digits. */
  lemma ReadDecimalPlain(s: ReaderState, negative: bool, whole: seq<Byte>, fraction: seq<Byte>, generic: Generic)
    requires s.Valid() && 1 <= |whole| && AllDigits(whole) && AllDigits(fraction)
    requires TokenAt(s, PlainDecimal(negative, whole, fraction)) && |PlainDecimal(negative, whole, fraction)| <= 18
    ensures ReadDecimal(s, generic)
         == Ok(Out(BigDec(Signed(negative, DigitsValue(whole + fraction)), |fraction|), ScanNumber(s).st))
  {
    PlainToken(s, negative, whole, fraction, generic);
    assert s.last != QUOTE by {
      PlainDecimalLayout(s, negative, whole, fraction);
    }
  }

  /** The number token of a plain decimal of at most 18 characters. */
  lemma PlainToken(s: ReaderState, negative: bool, whole: seq<Byte>, fraction: seq<Byte>, generic: Generic)
    requires s.Valid() && 1 <= |whole| && AllDigits(whole) && AllDigits(fraction)
    requires TokenAt(s, PlainDecimal(negative, whole, fraction)) && |PlainDecimal(negative, whole, fraction)| <= 18
    ensures ReadNumberToken(s, false, generic)
         == Ok(Out(DecNum(BigDec(Signed(negative, DigitsValue(whole + fraction)), |fraction|)), ScanNumber(s).st))
  {
    var p := s.currentIndex - 1;
    var i := if negative then p + 1 else p;
    var dot := i + |whole|;
    var e := dot + 1 + |fraction|;
    PlainDecimalLayout(s, negative, whole, fraction);
    ReadNumberTokenShort(s, e, false, generic);
    var t := ScanNumber(s).st;
    assert t.buf == s.buf && t.buf[p] == s.last;
    assert t.buf[i..dot] == whole && t.buf[dot + 1..e] == fraction;
    ShortDigitsFit(whole + fraction);
    MantissaPlain(t, p, dot, e, negative, false, generic);
  }

  /** The fraction loop stopping at the exponent mark at `ep`, followed
      by the exponent's digits with an optional minus up to `e`: the scale
      is the number of fraction digits less the exponent. */
  lemma FractionExponent(t: ReaderState, p: int, dp: int, ep: int, e: int, value: int,
                         negative: bool, expNegative: bool, generic: Generic)
    requires t.Valid() && 0 <= p < dp <= ep && (if expNegative then ep + 2 else ep + 1) < e <= |t.buf|
    requires IsLong(value) && IsExponentMark(t.buf[ep]) && (expNegative ==> t.buf[ep + 1] == MINUS)
    requires var j := if expNegative then ep + 2 else ep + 1;
      AllDigits(t.buf[j..e]) && IsInt(Signed(expNegative, DigitsValue(t.buf[j..e])))
      && IsInt(ep - dp - Signed(expNegative, DigitsValue(t.buf[j..e])))
    ensures var j := if expNegative then ep + 2 else ep + 1;
      FractionDigits(t, p, e, dp, ep, value, negative, generic)
        == Ok(Out(DecNum(BigDec(value, ep - dp - Signed(expNegative, DigitsValue(t.buf[j..e])))), t))
  {
    var j := if expNegative then ep + 2 else ep + 1;
    assert IsDigit(t.buf[j]) by { assert t.buf[j] == t.buf[j..e][0]; }
    DigitLoopDigits(t, p, e, j, expNegative, false, generic);
  }

  /** The digit loops over `whole.fraction` followed by an exponent mark
      at `ep` and the exponent's digits, with an optional minus, up to `e`:
      the unscaled value is the digits on both sides of the point and the
      scale is the number of fraction digits less the exponent. */
  lemma MantissaExponent(t: ReaderState, p: int, dot: int, ep: int, e: int,
                         negative: bool, expNegative: bool, number: bool, generic: Generic)
    requires t.Valid() && 0 <= p && (if negative then p + 1 else p) < dot < ep
    requires (if expNegative then ep + 2 else ep + 1) < e <= |t.buf|
    requires negative ==> t.buf[p] == MINUS
    requires expNegative ==> t.buf[ep + 1] == MINUS
    requires var i := if negative then p + 1 else p;
      AllDigits(t.buf[i..dot]) && t.buf[dot] == '.' as int && AllDigits(t.buf[dot + 1..ep])
      && DigitsValue(t.buf[i..dot] + t.buf[dot + 1..ep]) <= LONG_MAX
    requires var j := if expNegative then ep + 2 else ep + 1;
      IsExponentMark(t.buf[ep]) && AllDigits(t.buf[j..e])
      && IsInt(Signed(expNegative, DigitsValue(t.buf[j..e])))
      && IsInt(ep - dot - 1 - Signed(expNegative, DigitsValue(t.buf[j..e])))
    ensures var i, j := if negative then p + 1 else p, if expNegative then ep + 2 else ep + 1;
      Mantissa(t, p, e, number, generic)
        == Ok(Out(DecNum(BigDec(Signed(negative, DigitsValue(t.buf[i..dot] + t.buf[dot + 1..ep])),
                                ep - dot - 1 - Signed(expNegative, DigitsValue(t.buf[j..e])))), t))
  {
    var i := if negative then p + 1 else p;
    WholeAndFraction(t, p, dot, ep, e, negative, number, generic);
    FractionExponent(t, p, dot + 1, ep, e, Signed(negative, DigitsValue(t.buf[i..dot] + t.buf[dot + 1..ep])), negative, expNegative, generic);
  }

  // ---------------------------------------------------------------------
  // Narrowing to a Long

  /** `tryLongFromBigDecimal` gives a `Long` exactly when the decimal has
      scale 0 and its value is within the `long` range; otherwise the
      decimal is kept as it is. */
  lemma TryLongExact(d: BigDec)
    ensures TryLongFromBigDecimal(d).LongNum? <==> d.scale == 0 && IsLong(d.unscaled)
    ensures TryLongFromBigDecimal(d).LongNum? ==> TryLongFromBigDecimal(d).long == d.unscaled
    ensures TryLongFromBigDecimal(d).DecNum? ==> TryLongFromBigDecimal(d).decimal == d
  {
    if d.scale == 0 && IsLong(d.unscaled) {
      var m := if d.unscaled < 0 then -d.unscaled else d.unscaled;
      Pow10Of18();
      DecimalDigitsAtMost(m, 19);
    }
  }
}

/** `serialize(BigDecimal)` of `NumberConverter`, which writes the value's
    `toString()`, and the round trip of that text through
    `deserializeDecimal`. `toString()` is the one the Java platform
    documents for `BigDecimal`: plain notation when the scale is not
    negative and the adjusted exponent is at least -6, scientific notation
    otherwise. */
module DecimalCodec {
  import opened Java
  import opened DecimalText
  import opened ReaderSpec
  import opened NumberReading
  import opened NumberProperties
  import JsonWriter

  /** The magnitude of an integer. */
  function Abs(x: int): (r: nat)
    ensures r == x || r == -x
  {
    if x < 0 then -x else x
  }

  /** `n` zero digits. */
  function Zeros(n: nat): (r: seq<Byte>)
    ensures |r| == n && AllDigits(r)
  {
    seq(n, _ => '0' as int)
  }

  /** The exponent of the leading digit: the number of digits of the
      unscaled value less one, less the scale. */
  function Adjusted(d: BigDec): int {
    |DecimalDigits(Abs(d.unscaled))| - 1 - d.scale
  }

  /** `BigDecimal.toString()`: the digits of the unscaled value with a
      leading `-` when it is negative; with a positive scale and an
      adjusted exponent of at least -6 a decimal point `scale` digits from
      the right (after `0.` and zeros when there are not enough digits);
      with a negative scale or a smaller adjusted exponent the first digit,
      the others after a point, and `E`, a `+` for a positive exponent and
      the exponent. */
  function DecimalString(d: BigDec): (r: seq<Byte>)
    ensures r != []
  {
    var coeff := DecimalDigits(Abs(d.unscaled));
    var sign: seq<Byte> := if d.unscaled < 0 then [MINUS] else [];
    var adjusted := Adjusted(d);
    if d.scale == 0 then sign + coeff
    else if d.scale > 0 && adjusted >= -6 then
      if d.scale >= |coeff| then sign + ['0' as int, '.' as int] + Zeros(d.scale - |coeff|) + coeff
      else sign + coeff[..|coeff| - d.scale] + ['.' as int] + coeff[|coeff| - d.scale..]
    else
      sign + coeff[..1] + (if |coeff| > 1 then ['.' as int] + coeff[1..] else [])
      + (if adjusted != 0 then ['E' as int] + (if adjusted > 0 then [PLUS] else []) + Decimal(adjusted) else [])
  }

  /** Zero digits add nothing to a value accumulated from zero. */
  lemma {:induction false} ZerosValue(n: nat)
    ensures DigitsValue(Zeros(n)) == 0
    decreases n
  {
    if n > 0 {
      ZerosValue(n - 1);
      assert Zeros(n) == Zeros(n - 1) + ['0' as int];
      AccumulateSnoc(0, Zeros(n - 1), '0' as int);
    }
  }

  /** Leading zeros do not change the value of digits. */
  lemma LeadingZeros(n: nat, s: seq<int>)
    ensures DigitsValue(['0' as int] + Zeros(n) + s) == DigitsValue(s)
  {
    assert ['0' as int] + Zeros(n) == Zeros(n + 1);
    ZerosValue(n + 1);
    AccumulateAppend(0, Zeros(n + 1), s);
  }

  /** The digits before the point of the plain form of `d`. */
  function PlainWhole(d: BigDec): seq<Byte>
    requires d.scale > 0
  {
    var coeff := DecimalDigits(Abs(d.unscaled));
    if d.scale >= |coeff| then ['0' as int] else coeff[..|coeff| - d.scale]
  }

  /** The digits after the point of the plain form of `d`. */
  function PlainFraction(d: BigDec): seq<Byte>
    requires d.scale > 0
  {
    var coeff := DecimalDigits(Abs(d.unscaled));
    if d.scale >= |coeff| then Zeros(d.scale - |coeff|) + coeff else coeff[|coeff| - d.scale..]
  }

  /** The plain forms are the ones `PlainDecimal` describes: `scale`
      digits after the point, and digits whose value is the magnitude of
      the unscaled value. */
  lemma PlainForm(d: BigDec)
    requires d.scale > 0 && Adjusted(d) >= -6
    ensures DecimalString(d) == PlainDecimal(d.unscaled < 0, PlainWhole(d), PlainFraction(d))
    ensures 1 <= |PlainWhole(d)| && AllDigits(PlainWhole(d)) && AllDigits(PlainFraction(d))
    ensures |PlainFraction(d)| == d.scale
    ensures DigitsValue(PlainWhole(d) + PlainFraction(d)) == Abs(d.unscaled)
  {
    PlainParts(d);
    PlainValue(d);
  }

  /** The digits on both sides of the point of a plain form. */
  lemma PlainParts(d: BigDec)
    requires d.scale > 0 && Adjusted(d) >= -6
    ensures DecimalString(d) == PlainDecimal(d.unscaled < 0, PlainWhole(d), PlainFraction(d))
    ensures 1 <= |PlainWhole(d)| && AllDigits(PlainWhole(d)) && AllDigits(PlainFraction(d))
    ensures |PlainFraction(d)| == d.scale
  {
    var coeff := DecimalDigits(Abs(d.unscaled));
    var whole, fraction := PlainWhole(d), PlainFraction(d);
    if d.scale < |coeff| {
      var k := |coeff| - d.scale;
      assert forall j | 0 <= j < |whole| :: whole[j] == coeff[j];
      assert forall j | 0 <= j < |fraction| :: fraction[j] == coeff[k + j];
    }
  }

  /** The digits of a plain form spell the magnitude of the unscaled value. */
  lemma PlainValue(d: BigDec)
    requires d.scale > 0
    ensures DigitsValue(PlainWhole(d) + PlainFraction(d)) == Abs(d.unscaled)
  {
    var coeff := DecimalDigits(Abs(d.unscaled));
    var whole, fraction := PlainWhole(d), PlainFraction(d);
    DecimalDigitsValue(Abs(d.unscaled));
    if d.scale >= |coeff| {
      LeadingZeros(d.scale - |coeff|, coeff);
      assert whole + fraction == ['0' as int] + Zeros(d.scale - |coeff|) + coeff;
    } else {
      assert whole + fraction == coeff;
    }
  }

  /** A decimal with scale 0 is written as its unscaled value. */
  lemma IntegerForm(d: BigDec)
    requires d.scale == 0
    ensures DecimalString(d) == Decimal(d.unscaled)
  {
  }

  /** Where the digits of an integer lie in the input. */
  lemma IntegerLayout(s: ReaderState, v: int)
    requires s.Valid() && TokenAt(s, Decimal(v))
    ensures var p := s.currentIndex - 1;
      var i, e := if v < 0 then p + 1 else p, p + |Decimal(v)|;
      && s.buf[i..e] == DecimalDigits(Abs(v)) && (v < 0 ==> s.last == MINUS)
      && (forall k | s.currentIndex <= k < e :: !IsNumberEnd(s.buf[k]))
  {
    var p, d := s.currentIndex - 1, Decimal(v);
    var e := p + |d|;
    var i := if v < 0 then p + 1 else p;
    assert s.buf[p..e] == d;
    assert s.buf[i..e] == DecimalDigits(Abs(v)) by {
      if v < 0 {
        assert s.buf[p + 1..e] == d[1..];
      }
    }
    forall k | s.currentIndex <= k < e ensures !IsNumberEnd(s.buf[k]) {
      assert s.buf[k] == DecimalDigits(Abs(v))[k - i] by {
        assert s.buf[k] == s.buf[i..e][k - i];
      }
    }
  }

  /** The digit loop over an integer (after an optional minus at `p`) that
      fits a `long` runs to the end of the token: the value with scale 0. */
  lemma MantissaInteger(t: ReaderState, p: int, e: int, negative: bool, number: bool, generic: Generic)
    requires t.Valid() && 0 <= p && (if negative then p + 1 else p) < e <= |t.buf|
    requires negative ==> t.buf[p] == MINUS
    requires var i := if negative then p + 1 else p;
      AllDigits(t.buf[i..e]) && DigitsValue(t.buf[i..e]) <= LONG_MAX
    ensures var i := if negative then p + 1 else p;
      var v := Signed(negative, DigitsValue(t.buf[i..e]));
      Mantissa(t, p, e, number, generic) == Ok(Out(if number then LongNum(v) else DecNum(BigDec(v, 0)), t))
  {
    var i := if negative then p + 1 else p;
    assert IsDigit(t.buf[i]) by { assert t.buf[i] == t.buf[i..e][0]; }
    AccumulateAtLeast(0, t.buf[i..e]);
    IntegerDigitsRun(t, p, e, i, e, 0, negative, number, generic);
    assert Mantissa(t, p, e, number, generic) == IntegerDigits(t, p, e, i, 0, negative, number, generic);
  }

  /** `deserializeDecimal` of an integer of at most 18 bytes: the value with
      scale 0. */
  lemma ReadDecimalInteger(s: ReaderState, v: int, generic: Generic)
    requires s.Valid() && TokenAt(s, Decimal(v)) && |Decimal(v)| <= 18
    ensures ReadDecimal(s, generic) == Ok(Out(BigDec(v, 0), ScanNumber(s).st))
  {
    var p := s.currentIndex - 1;
    var e := p + |Decimal(v)|;
    var m := Abs(v);
    IntegerLayout(s, v);
    ReadNumberTokenShort(s, e, false, generic);
    var t := ScanNumber(s).st;
    assert t.buf == s.buf && t.buf[p] == s.last;
    DecimalDigitsValue(m);
    ShortDigitsFit(DecimalDigits(m));
    MantissaInteger(t, p, e, v < 0, false, generic);
    assert ReadNumberToken(s, false, generic) == Ok(Out(DecNum(BigDec(v, 0)), t));
    assert s.last != QUOTE;
  }

  /** Round trip: `deserializeNumber` reads what `serialize(long)` writes,
      up to 18 bytes, back as a `Long` of the same value. */
  lemma ReadNumberInteger(s: ReaderState, v: int, generic: Generic)
    requires s.Valid() && TokenAt(s, Decimal(v)) && |Decimal(v)| <= 18
    ensures ReadNumber(s, generic) == Ok(Out(LongNum(v), ScanNumber(s).st))
  {
    var p := s.currentIndex - 1;
    var e := p + |Decimal(v)|;
    var m := Abs(v);
    IntegerLayout(s, v);
    ReadNumberTokenShort(s, e, true, generic);
    var t := ScanNumber(s).st;
    assert t.buf == s.buf && t.buf[p] == s.last;
    DecimalDigitsValue(m);
    ShortDigitsFit(DecimalDigits(m));
    MantissaInteger(t, p, e, v < 0, true, generic);
  }

  /** Round trip: what `serialize(BigDecimal)` writes for a value in plain
      notation, up to the 18 bytes the library parses itself, is read back
      by `deserializeDecimal` with the same unscaled value and scale, and
      the cursor stops after it. */
  lemma DecimalRoundTrip(s: ReaderState, d: BigDec, generic: Generic)
    requires s.Valid() && d.scale >= 0 && Adjusted(d) >= -6
    requires TokenAt(s, DecimalString(d)) && |DecimalString(d)| <= 18
    ensures ReadDecimal(s, generic) == Ok(Out(d, ScanNumber(s).st))
  {
    if d.scale == 0 {
      IntegerForm(d);
      ReadDecimalInteger(s, d.unscaled, generic);
    } else {
      PlainForm(d);
      ReadDecimalPlain(s, d.unscaled < 0, PlainWhole(d), PlainFraction(d), generic);
    }
  }

  /** `serialize(BigDecimal, sw)`: the value's `toString()` appended to the
      writer. */
  method SerializeDecimal(d: BigDec, sw: JsonWriter.JsonWriter)
    requires sw.Valid()
    modifies sw, sw.result
    ensures sw.Valid() && (sw.result == old(sw.result) || fresh(sw.result))
    ensures sw.Contents() == old(sw.Contents()) + DecimalString(d)
  {
    sw.WriteAscii(DecimalString(d));
  }

  /** `serializeNullable(BigDecimal, sw)`: `null` for a missing value. */
  method SerializeNullableDecimal(d: Option<BigDec>, sw: JsonWriter.JsonWriter) returns (r: Result<()>)
    requires sw.Valid()
    modifies sw, sw.result
    ensures sw.Valid() && (sw.result == old(sw.result) || fresh(sw.result))
    ensures d.Some? ==> r.Ok? && sw.Contents() == old(sw.Contents()) + DecimalString(d.value)
    ensures d.None? ==> r == if JsonWriter.NullFits(old(sw.result.Length), old(sw.position)) then Ok(()) else Err(IndexOutOfBounds)
    ensures d.None? && r.Ok? ==> sw.Contents() == old(sw.Contents()) + NULL
    ensures r.Err? ==> sw.Contents() == old(sw.Contents())
  {
    if d.None? {
      r := sw.WriteNull();
    } else {
      SerializeDecimal(d.value, sw);
      r := Ok(());
    }
  }
}

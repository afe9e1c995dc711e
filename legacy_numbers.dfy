/** The older `NumberConverter`: a table of two-digit pairs, numbers written
    two digits at a time from the right into the writer's scratch buffer,
    and parsers that read the token's characters, as the older reader hands
    them over, without an overflow check. */
module LegacyNumbers {
  import opened Java
  import opened DecimalText
  import opened NumberReading
  import NumberConverter

  // ---------------------------------------------------------------------
  // The Digits table

  /** Entry `i` of `Digits`: the tens digit in bits 8-15, the units digit
      in bits 0-7, and bit 16 set for a single-digit `i`. */
  function DigitsEntry(i: int): int
    requires 0 <= i < 100
  {
    (if i < 10 then 0x1_0000 else 0) + ('0' as int + i / 10) * 0x100 + i % 10 + '0' as int
  }

  /** The table's packing: `(byte) (v >> 8)` is the tens digit, `(byte) v`
      the units digit, and `v >> 16` is 1 exactly below 10. */
  lemma DigitsLayout(i: int)
    requires 0 <= i < 100
    ensures ToByte(DigitsEntry(i) / 0x100) == DigitByte(i / 10)
    ensures ToByte(DigitsEntry(i)) == DigitByte(i % 10)
    ensures DigitsEntry(i) / 0x1_0000 == if i < 10 then 1 else 0
  {
    var t := if i < 10 then 1 else 0;
    var a, c := '0' as int + i / 10, '0' as int + i % 10;
    var v := DigitsEntry(i);
    DivModUnique(v, 0x1_0000, t, a * 0x100 + c);
    DivModUnique(v, 0x100, t * 0x100 + a, c);
    NumberConverter.LowByte(t * 0x100 + a, t, a);
    NumberConverter.LowByte(v, t * 0x100 + a, c);
  }

  /** The static initializer of `Digits`. */
  method BuildDigits() returns (digits: array<int>)
    ensures digits.Length == 100
    ensures forall i | 0 <= i < 100 :: digits[i] == DigitsEntry(i)
  {
    digits := new int[100];
    for i := 0 to 100
      invariant forall k | 0 <= k < i :: digits[k] == DigitsEntry(k)
    {
      digits[i] := (if i < 10 then 0x1_0000 else 0) + ('0' as int + i / 10) * 0x100 + i % 10 + '0' as int;
    }
  }

  // ---------------------------------------------------------------------
  // Fixed-width digits

  /** `write2(value, buf, pos)`: two zero-padded digits. */
  method Write2(value: int, buf: array<Byte>, pos: int)
    requires 0 <= value < 100 && 0 <= pos && pos + 2 <= buf.Length
    modifies buf
    ensures Wrote(buf[..], old(buf[..]), pos, Padded(value, 2))
  {
    var v := DigitsEntry(value);
    DigitsLayout(value);
    Padded2(value);
    buf[pos] := ToByte(v / 0x100);
    buf[pos + 1] := ToByte(v);
    WroteAt(buf[..], old(buf[..]), pos, Padded(value, 2));
  }

  /** Four digits are the hundreds as a pair and the rest as a pair;
      `(q << 6) + (q << 5) + (q << 2)` is `100 * q`. */
  lemma HundredsSplit(value: int)
    requires 0 <= value <= 9999
    ensures var q := value / 100;
      var r := value - (q * 64 + q * 32 + q * 4);
      && 0 <= q < 100 && 0 <= r < 100
      && Padded(value, 4) == [DigitByte(q / 10), DigitByte(q % 10), DigitByte(r / 10), DigitByte(r % 10)]
  {
    var q, r := value / 100, value % 100;
    Padded4(value);
    DivModUnique(value, 1000, q / 10, q % 10 * 100 + r);
    DivModUnique(value, 10, q * 10 + r / 10, r % 10);
    DivModUnique(value / 10, 10, q, r / 10);
  }

  /** `write4(value, buf, pos)`: four zero-padded digits; a value above
      9999 is rejected before anything is written. A negative value makes
      one of the two `Digits` lookups throw before anything is written: the
      quotient by 100 when it is below zero, otherwise the remainder, which
      then takes the value's sign. */
  method Write4(value: int, buf: array<Byte>, pos: int) returns (r: Result<()>)
    requires IsInt(value) && 0 <= pos && pos + 4 <= buf.Length
    modifies buf
    ensures r.Err? <==> value > 9999 || value < 0
    ensures r.Err? ==> buf[..] == old(buf[..])
    ensures r.Err? ==> if value > 9999 then r.error.IllegalArgument? else r.error == IndexOutOfBounds
    ensures r.Ok? ==> Wrote(buf[..], old(buf[..]), pos, Padded(value, 4))
  {
    if value > 9999 {
      return Err(IllegalArgument("Only 4 digits numbers are supported"));
    }
    var q := TruncDiv(value, 100);
    if q < 0 || value - (q * 64 + q * 32 + q * 4) < 0 {
      return Err(IndexOutOfBounds);
    }
    HundredsSplit(value);
    var v1 := DigitsEntry(q);
    var v2 := DigitsEntry(value - (q * 64 + q * 32 + q * 4));
    DigitsLayout(q);
    DigitsLayout(value - (q * 64 + q * 32 + q * 4));
    buf[pos] := ToByte(v1 / 0x100);
    buf[pos + 1] := ToByte(v1);
    buf[pos + 2] := ToByte(v2 / 0x100);
    buf[pos + 3] := ToByte(v2);
    WroteAt(buf[..], old(buf[..]), pos, Padded(value, 4));
    return Ok(());
  }

  /** The older `read2` and `read4` are the library's `Read2` and `Read4`:
      they read back what the older `write2` and `write4` write. */
  lemma Read4Write4(value: int, chars: seq<Char>, pos: int)
    requires 0 <= value <= 9999 && 0 <= pos && pos + 4 <= |chars|
    requires chars[pos..pos + 4] == Padded(value, 4)
    ensures NumberConverter.Read4(chars, pos) == value
  {
    NumberConverter.Read4Write4(value, chars, pos);
  }

  lemma Read2Write2(value: int, chars: seq<Char>, pos: int)
    requires 0 <= value < 100 && 0 <= pos && pos + 2 <= |chars|
    requires chars[pos..pos + 2] == Padded(value, 2)
    ensures NumberConverter.Read2(chars, pos) == value
  {
    NumberConverter.Read2Write2(value, chars, pos);
  }

  // ---------------------------------------------------------------------
  // Writing int and long two digits at a time

  /** Dividing by 10 and then by `10^w` is dividing by `10^(w+1)`. */
  lemma DivPow10(n: nat, w: nat)
    ensures n / 10 / Pow10(w) == n / Pow10(w + 1)
  {
    var q, r := n / 10 / Pow10(w), n / 10 % Pow10(w);
    assert n / 10 == q * Pow10(w) + r;
    assert n == q * Pow10(w + 1) + (r * 10 + n % 10);
    DivModUnique(n, Pow10(w + 1), q, r * 10 + n % 10);
  }

  /** A quotient of a natural number by a positive one is natural. */
  lemma DivNat(n: nat, d: int)
    requires d >= 1
    ensures n / d >= 0
  {
  }

  /** What is left of `n` above its last `w` digits. */
  function Above(n: nat, w: nat): (r: nat)
    ensures r == n / Pow10(w)
  {
    DivNat(n, Pow10(w));
    n / Pow10(w)
  }

  /** The last `w + j` digits are the `j` digits above the last `w`, then
      the last `w`. */
  lemma {:induction false} PaddedSplit(n: nat, w: nat, j: nat)
    ensures Padded(n, w + j) == Padded(Above(n, w), j) + Padded(n, w)
    decreases w
  {
    if w > 0 {
      var last := [DigitByte(n % 10)];
      PaddedSplit(n / 10, w - 1, j);
      DivPow10(n, w - 1);
      assert Above(n / 10, w - 1) == Above(n, w);
      assert Padded(n, w + j) == Padded(n / 10, (w - 1) + j) + last;
      assert Padded(n, w) == Padded(n / 10, w - 1) + last;
      assert Padded(n, w + j) == Padded(Above(n, w), j) + (Padded(n / 10, w - 1) + last);
    } else {
      assert n / Pow10(0) == n;
    }
  }

  /** A padded number with as many digits as it needs is its shortest
      form. */
  lemma {:induction false} PaddedShortest(n: nat, w: nat)
    requires 1 <= w && n < Pow10(w) && (w == 1 || Pow10(w - 1) <= n)
    ensures Padded(n, w) == DecimalDigits(n)
    decreases w
  {
    if w == 1 {
      assert Padded(n / 10, 0) == [];
    } else {
      assert n / 10 < Pow10(w - 1);
      if w > 2 {
        assert Pow10(w - 2) <= n / 10;
      }
      PaddedShortest(n / 10, w - 1);
    }
  }

  /** A number below `10^w` padded to `w + 1` digits has a leading zero. */
  lemma PaddedLeadingZero(n: nat, w: nat)
    requires n < Pow10(w)
    ensures Padded(n, w + 1) == [DigitByte(0)] + Padded(n, w)
  {
    PaddedSplit(n, w, 1);
    DivModUnique(n, Pow10(w), 0, n);
    assert Padded(0, 1) == [DigitByte(0)] by {
      assert Padded(0, 1) == Padded(0, 0) + [DigitByte(0)];
    }
  }

  /** Multiplying by a non-negative number keeps the order. */
  lemma MulMonotone(a: int, b: int, p: nat)
    requires a <= b
    ensures a * p <= b * p
  {
    assert b * p - a * p == (b - a) * p;
  }

  /** The quotient by `p` is below `c` exactly when the number is below
      `c * p`. */
  lemma QuotientBelow(n: nat, p: nat, c: nat)
    requires p >= 1
    ensures n / p < c <==> n < c * p
  {
    var q, r := n / p, n % p;
    assert n == q * p + r;
    if q < c {
      MulMonotone(q, c - 1, p);
      assert (c - 1) * p == c * p - p;
    } else {
      MulMonotone(c, q, p);
    }
  }

  /** The pairs written for `n`, without the leading zero of a top pair
      below 10, are the shortest form of `n`. */
  lemma PairsShortest(n: nat, k: nat)
    requires 1 <= k && n < Pow10(2 * k) && (k == 1 || Pow10(2 * k - 2) <= n)
    ensures var drop := if n / Pow10(2 * k - 2) < 10 then 1 else 0;
      Padded(n, 2 * k)[drop..] == DecimalDigits(n)
  {
    var p := Pow10(2 * k - 2);
    assert Pow10(2 * k - 1) == 10 * p;
    QuotientBelow(n, p, 10);
    if n / p < 10 {
      PaddedLeadingZero(n, 2 * k - 1);
      assert 2 * k - 1 + 1 == 2 * k;
      PaddedShortest(n, 2 * k - 1);
    } else {
      PaddedShortest(n, 2 * k);
    }
  }

  /** A number is its quotient times the divisor plus its remainder. */
  lemma DivModParts(n: int, d: int)
    requires d >= 1
    ensures n == n / d * d + n % d && 0 <= n % d < d
  {
  }

  /** `(q * c + r) * p` regrouped. */
  lemma Regroup(q: int, r: int, c: int, p: int)
    ensures (q * c + r) * p == q * (c * p) + r * p
  {
  }

  /** One turn of the pair loop: the pair below `i`, the last two digits
      of what is left above the `w` digits written so far, extends them. */
  lemma PairStep(n: nat, w: nat, i: nat)
    requires i == n / Pow10(w)
    ensures var q := i / 100;
      var r := i - (q * 64 + q * 32 + q * 4);
      && 0 <= r < 100 && r == i % 100
      && q == n / Pow10(w + 2)
      && Padded(n, w + 2) == [DigitByte(r / 10), DigitByte(r % 10)] + Padded(n, w)
  {
    var q, r := i / 100, i % 100;
    PaddedSplit(n, w, 2);
    Padded2(i);
    DivModUnique(r, 10, r / 10, r % 10);
    DivModUnique(i, 10, q * 10 + r / 10, r % 10);
    DivModUnique(i / 10, 10, q, r / 10);
    Pow10Add(w, 2);
    assert Pow10(2) == 100;
    DivDiv(n, Pow10(w), 100);
  }

  /** Dividing by `p` and then by `c` is dividing by `p * c`. */
  lemma DivDiv(n: nat, p: nat, c: nat)
    requires p >= 1 && c >= 1
    ensures n / p / c == n / (p * c)
  {
    var i := n / p;
    var q, r := i / c, i % c;
    DivModParts(n, p);
    DivModParts(i, c);
    Regroup(q, r, c, p);
    MulMonotone(r, c - 1, p);
    assert (c - 1) * p == c * p - p;
    DivModUnique(n, p * c, q, r * p + n % p);
  }

  /** The loop of `serialize(int, sw)` and `serialize(long, sw)` for the
      magnitude `n`: pairs from `Digits` stored from index `top` down until
      nothing is left. It returns where the digits start, one further on
      when the top pair is a single digit (`v >> 16`). */
  method WritePairs(tmp: array<Byte>, n: int, top: int) returns (start: int)
    requires top >= 2 && top % 2 == 0 && top < tmp.Length && 0 <= n < Pow10(top)
    modifies tmp
    ensures 0 <= start <= top + 1 && tmp[start..top + 1] == DecimalDigits(n)
  {
    ghost var pairs := top / 2;
    var charPos, v, written, w, k, i, prev := PairLoop(tmp, n, top, pairs);
    PairsEnd(n, top, pairs, written, w, k, i, prev, v);
    start := charPos + 1 + v / 0x1_0000;
    assert tmp[start..top + 1] == tmp[charPos + 1..top + 1][v / 0x1_0000..];
  }

  /** The stores of `WritePairs`, with what they keep: the `written`
      digits of `n` stored from `top` down, in `k` pairs, with `i` left
      above them; the last pair `v` is what was left, `prev`, above the `w`
      digits before it. The loop stops at index 1 or when nothing is left. */
  method PairLoop(tmp: array<Byte>, n: int, top: int, ghost pairs: nat)
      returns (charPos: int, v: int, ghost written: nat, ghost w: nat, ghost k: nat, ghost i: nat, ghost prev: int)
    requires top == 2 * pairs && top >= 2 && top < tmp.Length && 0 <= n
    modifies tmp
    ensures 0 <= charPos <= top && charPos == top - written && written == 2 * k && k <= pairs
    ensures i == n / Pow10(written) && tmp[charPos + 1..top + 1] == Padded(n, written)
    ensures written >= 2 && written == w + 2 && prev == n / Pow10(w) && v == DigitsEntry(prev % 100)
    ensures w >= 2 ==> prev != 0
    ensures charPos <= 1 || i == 0
  {
    charPos := top;
    var rest := n;
    v := 0;
    written, w, k, i, prev := 0, 0, 0, n, 0;
    while charPos > 1
      invariant 0 <= charPos <= top && charPos == top - written && written == 2 * k && k <= pairs
      invariant rest == i && i == n / Pow10(written)
      invariant tmp[charPos + 1..top + 1] == Padded(n, written)
      invariant written >= 2 ==> written == w + 2 && prev == n / Pow10(w) && v == DigitsEntry(prev % 100)
      invariant written >= 2 ==> i != 0
      invariant w >= 2 ==> prev != 0
      decreases charPos
    {
      var q := rest / 100;
      var r := rest - (q * 64 + q * 32 + q * 4);
      PairStep(n, written, rest);
      rest := q;
      v := StorePair(tmp, charPos, top, r);
      charPos := charPos - 2;
      prev, i := i, q;
      w, written, k := written, written + 2, k + 1;
      if rest == 0 {
        break;
      }
    }
  }

  /** The two stores of one turn: the tens digit of the pair `r` below
      the units digit, in front of what index `pos` already held. */
  method StorePair(tmp: array<Byte>, pos: int, top: int, r: int) returns (v: int)
    requires 1 <= pos <= top < tmp.Length && 0 <= r < 100
    modifies tmp
    ensures v == DigitsEntry(r)
    ensures tmp[pos - 1..top + 1] == [DigitByte(r / 10), DigitByte(r % 10)] + old(tmp[pos + 1..top + 1])
  {
    v := DigitsEntry(r);
    DigitsLayout(r);
    tmp[pos] := ToByte(v);
    tmp[pos - 1] := ToByte(v / 0x100);
  }

  /** When the pair loop has stopped, the top pair `v` is the number above
      the `w` digits before it, and dropping its leading zero, if it has
      one, leaves the shortest digits of `n`. */
  lemma PairsEnd(n: nat, top: nat, pairs: nat, written: nat, w: nat, k: nat, i: nat, prev: int, v: int)
    requires top == 2 * pairs && n < Pow10(top) && written == 2 * k && k <= pairs
    requires i == n / Pow10(written) && (top - written <= 1 || i == 0)
    requires written >= 2 && written == w + 2 && prev == n / Pow10(w) && v == DigitsEntry(prev % 100)
    requires w >= 2 ==> prev != 0
    ensures 0 <= v / 0x1_0000 <= 1 && Padded(n, written)[v / 0x1_0000..] == DecimalDigits(n)
  {
    if i != 0 {
      assert written == top;
      DivModUnique(n, Pow10(top), 0, n);
    }
    TopPairEnd(n, w, k, v);
  }

  /** Nothing left above `w + 2` digits: the pair above the `w` digits is
      the top one. */
  lemma TopPairEnd(n: nat, w: nat, k: nat, v: int)
    requires w + 2 == 2 * k && n / Pow10(w + 2) == 0 && (w == 0 || n / Pow10(w) != 0)
    requires v == DigitsEntry(n / Pow10(w) % 100)
    ensures 0 <= v / 0x1_0000 <= 1 && Padded(n, w + 2)[v / 0x1_0000..] == DecimalDigits(n)
  {
    var p, above := Pow10(w), Pow10(w + 2);
    Pow10Add(w, 2);
    assert Pow10(2) == 100;
    assert above == p * 100;
    QuotientBelow(n, above, 1);
    assert n < above;
    TopPair(n, p);
    if w > 0 {
      QuotientBelow(n, p, 1);
    }
    DigitsLayout(n / p);
    assert 2 * k - 2 == w;
    PairsShortest(n, k);
  }

  /** Below `100 * p` the quotient by `p` is a single pair. */
  lemma TopPair(n: nat, p: nat)
    requires p >= 1 && n < p * 100
    ensures n / p < 100 && n / p % 100 == n / p
  {
    QuotientBelow(n, p, 100);
    DivModUnique(n / p, 100, 0, n / p);
  }

  /** The widths of the scratch buffer: ten digits hold every `int`
      magnitude, twenty every `long` magnitude. */
  lemma Pow10Widths()
    ensures INT_MAX < Pow10(10) && LONG_MAX < Pow10(20)
  {
    Pow10Of18();
    assert Pow10(10) == 10 * (10 * (10 * (10 * (10 * (10 * (10 * (10 * (10 * (10 * Pow10(0))))))))));
    Pow10Add(18, 2);
    assert Pow10(2) == 100;
  }

  /** `serialize(int, sw)`: the literal for `Integer.MIN_VALUE`; otherwise
      a `-` for a negative value, then the digits of its magnitude from
      `tmp[10]` down. The bytes written are the shortest decimal form. */
  method SerializeInt(value: int, tmp: array<Byte>) returns (bytes: seq<Byte>)
    requires IsInt(value) && tmp.Length >= 11
    modifies tmp
    ensures bytes == Decimal(value)
  {
    if value == INT_MIN {
      NumberConverter.MinIntText(value);
      return NumberConverter.MIN_INT;
    }
    var i := value;
    var sign: seq<Byte> := [];
    if value < 0 {
      i := -value;
      sign := [MINUS];
    }
    Pow10Widths();
    var start := WritePairs(tmp, i, 10);
    bytes := sign + tmp[start..11];
  }

  /** `serialize(long, sw)`: the same with `Long.MIN_VALUE` and twenty
      digit positions. */
  method SerializeLong(value: int, tmp: array<Byte>) returns (bytes: seq<Byte>)
    requires IsLong(value) && tmp.Length >= 21
    modifies tmp
    ensures bytes == Decimal(value)
  {
    if value == LONG_MIN {
      NumberConverter.MinLongText(value);
      return NumberConverter.MIN_LONG;
    }
    var i := value;
    var sign: seq<Byte> := [];
    if value < 0 {
      i := -value;
      sign := [MINUS];
    }
    Pow10Widths();
    var start := WritePairs(tmp, i, 20);
    bytes := sign + tmp[start..21];
  }
}

/** Decimal text as the number and date converters write and read it: the
    shortest digits of a natural number, zero-padded fixed-width digits, and
    the value of a run of ASCII digits accumulated left to right as the
    parsing loops do. Writes into a byte buffer are described by `Wrote`. */
module DecimalText {
  import opened Java

  function Pow10(n: nat): (r: nat)
    ensures r >= 1
  {
    if n == 0 then 1 else 10 * Pow10(n - 1)
  }

  predicate AllDigits(s: seq<int>) {
    forall k | 0 <= k < |s| :: IsDigit(s[k])
  }

  /** The loops' `value = value * 10 + (b - '0')`, over the bytes `s`. */
  function Accumulate(value: int, s: seq<int>): int
    decreases |s|
  {
    if s == [] then value else Accumulate(value * 10 + s[0] - '0' as int, s[1..])
  }

  /** The number that the ASCII digits `s` spell. */
  function DigitsValue(s: seq<int>): int {
    Accumulate(0, s)
  }

  /** The shortest decimal digits of `n`: no leading zero except for zero
      itself. */
  function DecimalDigits(n: nat): (r: seq<Byte>)
    ensures 1 <= |r| && AllDigits(r)
    decreases n
  {
    if n < 10 then [DigitByte(n)] else DecimalDigits(n / 10) + [DigitByte(n % 10)]
  }

  /** The decimal form of an integer: a `-` before the digits of a negative
      one. */
  function Decimal(v: int): (r: seq<Byte>)
    ensures |r| >= 1
  {
    if v < 0 then [MINUS] + DecimalDigits(-v) else DecimalDigits(v)
  }

  /** The last `w` decimal digits of `n`, padded with leading zeros. */
  function Padded(n: nat, w: nat): (r: seq<Byte>)
    ensures |r| == w && AllDigits(r)
  {
    if w == 0 then [] else Padded(n / 10, w - 1) + [DigitByte(n % 10)]
  }

  // ---------------------------------------------------------------------
  // Reading digits back

  /** A digit appended at the end multiplies the value so far by ten. */
  lemma {:induction false} AccumulateSnoc(value: int, s: seq<int>, d: int)
    ensures Accumulate(value, s + [d]) == Accumulate(value, s) * 10 + d - '0' as int
    decreases |s|
  {
    if s == [] {
      assert [] + [d] == [d];
    } else {
      assert (s + [d])[1..] == s[1..] + [d];
      AccumulateSnoc(value * 10 + s[0] - '0' as int, s[1..], d);
    }
  }

  /** Reading a concatenation goes on from the value of its first part. */
  lemma {:induction false} AccumulateAppend(value: int, s: seq<int>, t: seq<int>)
    ensures Accumulate(value, s + t) == Accumulate(Accumulate(value, s), t)
    decreases |s|
  {
    if s == [] {
      assert s + t == t;
    } else {
      assert (s + t)[1..] == s[1..] + t;
      AccumulateAppend(value * 10 + s[0] - '0' as int, s[1..], t);
    }
  }

  /** Reading digits after a value `v` shifts `v` left by their count. */
  lemma {:induction false} AccumulateFrom(value: int, s: seq<int>)
    ensures Accumulate(value, s) == value * Pow10(|s|) + DigitsValue(s)
    decreases |s|
  {
    if s != [] {
      var init := s[..|s| - 1];
      assert s == init + [s[|s| - 1]];
      AccumulateSnoc(value, init, s[|s| - 1]);
      AccumulateSnoc(0, init, s[|s| - 1]);
      AccumulateFrom(value, init);
    }
  }

  /** The shortest digits of `n` spell `n`. */
  lemma {:induction false} DecimalDigitsValue(n: nat)
    ensures DigitsValue(DecimalDigits(n)) == n
    decreases n
  {
    if n < 10 {
      assert Accumulate(0, DecimalDigits(n)) == Accumulate(n, []);
    } else {
      DecimalDigitsValue(n / 10);
      AccumulateSnoc(0, DecimalDigits(n / 10), DigitByte(n % 10));
    }
  }

  /** `w` padded digits spell `n` modulo `10^w`; with `n < 10^w`, `n`. */
  lemma {:induction false} PaddedValue(n: nat, w: nat)
    ensures DigitsValue(Padded(n, w)) == n % Pow10(w)
  {
    if w > 0 {
      PaddedValue(n / 10, w - 1);
      AccumulateSnoc(0, Padded(n / 10, w - 1), DigitByte(n % 10));
      ModTen(n, Pow10(w - 1));
    }
  }

  lemma ModTen(n: nat, p: nat)
    requires p >= 1
    ensures (n / 10) % p * 10 + n % 10 == n % (10 * p)
  {
    var q := n / 10;
    var m := q / p;
    assert q == m * p + q % p;
    assert m * (10 * p) == 10 * (m * p);
    DivModUnique(n, 10 * p, m, q % p * 10 + n % 10);
  }

  /** The shortest form has no leading zero, and exactly as many digits as
      `n` needs. */
  lemma {:induction false} DecimalDigitsShortest(n: nat)
    ensures DecimalDigits(n)[0] == '0' as int <==> n == 0
    ensures n < Pow10(|DecimalDigits(n)|)
    ensures |DecimalDigits(n)| > 1 ==> Pow10(|DecimalDigits(n)| - 1) <= n
    decreases n
  {
    if n >= 10 {
      DecimalDigitsShortest(n / 10);
    }
  }

  /** A number below `10^k` has at most `k` digits. */
  lemma DecimalDigitsAtMost(n: nat, k: nat)
    requires 1 <= k && n < Pow10(k)
    ensures |DecimalDigits(n)| <= k
  {
    DecimalDigitsShortest(n);
    if |DecimalDigits(n)| > k {
      Pow10Monotone(k, |DecimalDigits(n)| - 1);
    }
  }

  lemma {:induction false} Pow10Monotone(i: nat, j: nat)
    requires i <= j
    ensures Pow10(i) <= Pow10(j)
    decreases j
  {
    if i < j {
      Pow10Monotone(i, j - 1);
    }
  }

  /** Powers of ten multiply by adding exponents. */
  lemma {:induction false} Pow10Add(a: nat, b: nat)
    ensures Pow10(a + b) == Pow10(a) * Pow10(b)
    decreases a
  {
    if a > 0 {
      Pow10Add(a - 1, b);
    }
  }

  /** The powers of ten that bound a `long`. */
  lemma Pow10Of18()
    ensures Pow10(18) == 1_000_000_000_000_000_000 && Pow10(19) == 10_000_000_000_000_000_000
  {
    assert Pow10(3) == 1000;
    Pow10Add(3, 3);
    Pow10Add(6, 6);
    Pow10Add(12, 6);
  }

  /** Writing a number in groups: the digits of `q * 10^k + r` are those of
      `q` followed by `r` padded to `k` digits. */
  lemma {:induction false} DecimalSplit(q: nat, r: nat, k: nat)
    requires 1 <= q && r < Pow10(k)
    ensures DecimalDigits(q * Pow10(k) + r) == DecimalDigits(q) + Padded(r, k)
    decreases k
  {
    if k > 0 {
      var m := q * Pow10(k - 1);
      assert q * Pow10(k) == 10 * m;
      var n := 10 * m + r;
      assert n / 10 == m + r / 10 && n % 10 == r % 10;
      assert r / 10 < Pow10(k - 1);
      DecimalSplit(q, r / 10, k - 1);
      assert n >= 10 by {
        assert m >= 1;
      }
    }
  }

  /** One group of three: the digits of `n = q * 1000 + r`. */
  lemma Group3(n: int, q: int, r: int)
    requires 1 <= q && 0 <= r < 1000 && n == q * 1000 + r
    ensures DecimalDigits(n) == DecimalDigits(q) + Padded(r, 3)
  {
    assert Pow10(3) == 1000;
    DecimalSplit(q, r, 3);
  }

  /** Three padded digits spelled out. */
  lemma Padded3(n: nat)
    requires n < 1000
    ensures Padded(n, 3) == [DigitByte(n / 100), DigitByte(n / 10 % 10), DigitByte(n % 10)]
  {
    assert n / 10 / 10 == n / 100 && n / 100 % 10 == n / 100;
    assert Padded(n / 100, 1) == [DigitByte(n / 100)];
    assert Padded(n / 10, 2) == [DigitByte(n / 100), DigitByte(n / 10 % 10)];
  }

  /** Four padded digits spelled out. */
  lemma Padded4(n: nat)
    requires n < 10000
    ensures Padded(n, 4) == [DigitByte(n / 1000), DigitByte(n / 100 % 10), DigitByte(n / 10 % 10), DigitByte(n % 10)]
  {
    Padded3(n / 10);
    assert n / 10 / 100 == n / 1000 && n / 10 / 10 == n / 100;
  }

  /** The digits of a number below 10000 after its thousands are split off:
      `q = n / 1000` and the remainder `n - q * 1000`. */
  lemma ThousandsSplit(n: nat)
    requires n < 10000
    ensures var r := n - n / 1000 * 1000;
      0 <= r < 1000 && r / 100 == n / 100 % 10 && r / 10 % 10 == n / 10 % 10 && r % 10 == n % 10
  {
    var q, r := n / 1000, n % 1000;
    assert n == q * 1000 + r;
    DivModUnique(n, 100, 10 * q + r / 100, r % 100);
    DivModUnique(n / 100, 10, q, r / 100);
    DivModUnique(n, 10, 100 * q + r / 10, r % 10);
    DivModUnique(n / 10, 10, 10 * q + r / 10 / 10, r / 10 % 10);
  }

  /** Two padded digits spelled out: the last two digits of `n`. */
  lemma Padded2(n: nat)
    ensures Padded(n, 2) == [DigitByte(n / 10 % 10), DigitByte(n % 10)]
  {
  }

  /** The value of two and of four digits. */
  lemma DigitsValue2(s: seq<int>)
    requires |s| == 2
    ensures DigitsValue(s) == (s[0] - 48) * 10 + s[1] - 48
  {
    assert Accumulate(0, s) == Accumulate(s[0] - 48, s[1..]);
    assert Accumulate(s[0] - 48, s[1..]) == Accumulate((s[0] - 48) * 10 + s[1] - 48, s[1..][1..]);
    assert s[1..][1..] == [];
  }

  lemma DigitsValue4(s: seq<int>)
    requires |s| == 4
    ensures DigitsValue(s) == (s[0] - 48) * 1000 + (s[1] - 48) * 100 + (s[2] - 48) * 10 + s[3] - 48
  {
    assert s == s[..2] + s[2..];
    AccumulateAppend(0, s[..2], s[2..]);
    DigitsValue2(s[..2]);
    AccumulateFrom(DigitsValue(s[..2]), s[2..]);
    DigitsValue2(s[2..]);
  }

  // ---------------------------------------------------------------------
  // Writing into a buffer

  /** `now` is `before` with `w` written at `pos` and nothing else changed.
      The equation is stated under `Known(())`, which only the lemmas below
      assert: a method that chains writes passes the fact on without
      opening it. */
  ghost predicate Wrote(now: seq<Byte>, before: seq<Byte>, pos: int, w: seq<Byte>) {
    && 0 <= pos && pos + |w| <= |before| == |now|
    && forall u: () {:trigger Known(u)} :: Known(u) ==> now == before[..pos] + w + before[pos + |w|..]
  }

  /** A fact that is always true, written out where `Wrote` is opened. */
  predicate Known(u: ()) { true }

  /** A write stated byte by byte. */
  lemma WroteAt(now: seq<Byte>, before: seq<Byte>, pos: int, w: seq<Byte>)
    requires 0 <= pos && pos + |w| <= |before| == |now|
    requires forall k | 0 <= k < |now| :: now[k] == if pos <= k < pos + |w| then w[k - pos] else before[k]
    ensures Wrote(now, before, pos, w)
  {
    assert now == before[..pos] + w + before[pos + |w|..];
    assert Known(());
  }

  /** Two writes side by side are one write of both. */
  lemma WroteThen(a: seq<Byte>, b: seq<Byte>, c: seq<Byte>, pos: int, w1: seq<Byte>, w2: seq<Byte>)
    requires Wrote(b, a, pos, w1) && Wrote(c, b, pos + |w1|, w2)
    ensures Wrote(c, a, pos, w1 + w2)
  {
    assert Known(());
    assert b[..pos + |w1|] == a[..pos] + w1;
    assert b[pos + |w1| + |w2|..] == a[pos + |w1| + |w2|..];
  }

  /** A single byte store is a write of one byte. */
  lemma WroteByte(a: seq<Byte>, pos: int, x: Byte)
    requires 0 <= pos < |a|
    ensures Wrote(a[pos := x], a, pos, [x])
  {
    assert Known(());
  }

  /** Nothing written. */
  lemma WroteNothing(a: seq<Byte>, pos: int)
    requires 0 <= pos <= |a|
    ensures Wrote(a, a, pos, [])
  {
    assert a == a[..pos] + [] + a[pos..];
    assert Known(());
  }

  /** The bytes before the write followed by the write. */
  lemma WrotePrefix(now: seq<Byte>, before: seq<Byte>, pos: int, w: seq<Byte>)
    requires Wrote(now, before, pos, w)
    ensures |now| == |before| && now[..pos + |w|] == before[..pos] + w
  {
    assert Known(());
    assert now[..pos + |w|] == (before[..pos] + w + before[pos + |w|..])[..pos + |w|];
  }

  /** A write leaves the bytes before it alone. */
  lemma WroteKeeps(now: seq<Byte>, before: seq<Byte>, pos: int, w: seq<Byte>)
    requires Wrote(now, before, pos, w)
    ensures |now| == |before| && now[..pos] == before[..pos]
  {
    assert Known(());
    assert now[..pos] == (before[..pos] + w + before[pos + |w|..])[..pos];
  }

  /** A write leaves the bytes after it alone. */
  lemma WroteSuffix(now: seq<Byte>, before: seq<Byte>, pos: int, w: seq<Byte>)
    requires Wrote(now, before, pos, w)
    ensures |now| == |before| && now[pos + |w|..] == before[pos + |w|..]
  {
    assert Known(());
    assert now[pos + |w|..] == (before[..pos] + w + before[pos + |w|..])[pos + |w|..];
  }
}

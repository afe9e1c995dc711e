/** The parts of Java's primitive semantics that the codec relies on: signed
    bytes, UTF-16 chars, two's-complement `int`/`long` arithmetic, and the
    exceptions the library throws, modelled as a failure-compatible result. */
module Java {

  /** A Java `byte`: signed, -128..127. JSON input and output are byte arrays. */
  type Byte = b: int | -128 <= b < 128

  /** A Java `char`: an unsigned UTF-16 code unit. */
  type Char = c: int | 0 <= c < 0x1_0000

  const INT_MIN: int := -0x8000_0000
  const INT_MAX: int := 0x7fff_ffff
  const LONG_MIN: int := -0x8000_0000_0000_0000
  const LONG_MAX: int := 0x7fff_ffff_ffff_ffff

  predicate IsInt(x: int) { INT_MIN <= x <= INT_MAX }
  predicate IsLong(x: int) { LONG_MIN <= x <= LONG_MAX }

  /** The value a Java `int` holds after an arithmetic result `x` wraps around. */
  function Int32(x: int): (r: int)
    ensures IsInt(r)
    ensures (r - x) % 0x1_0000_0000 == 0
    ensures IsInt(x) ==> r == x
  {
    (x - INT_MIN) % 0x1_0000_0000 + INT_MIN
  }

  /** The value a Java `long` holds after an arithmetic result `x` wraps around. */
  function Int64(x: int): (r: int)
    ensures IsLong(r)
    ensures (r - x) % 0x1_0000_0000_0000_0000 == 0
    ensures IsLong(x) ==> r == x
  {
    (x - LONG_MIN) % 0x1_0000_0000_0000_0000 + LONG_MIN
  }

  /** The quotient and remainder of a division are unique. */
  lemma DivModUnique(n: int, d: int, a: int, b: int)
    requires d >= 1 && n == a * d + b && 0 <= b < d
    ensures n / d == a && n % d == b
  {
    var q, r := n / d, n % d;
    assert n == q * d + r;
    if a > q {
      MulAtLeast(a - q, d);
    } else if a < q {
      MulAtLeast(q - a, d);
    }
  }

  lemma MulAtLeast(x: int, d: int)
    requires x >= 1 && d >= 1
    ensures x * d >= d
  {
  }

  /** Java's integer division `a / d` for a positive divisor: the quotient
      truncated toward zero, so that the remainder `a - q * d` takes the
      sign of `a`. */
  function TruncDiv(a: int, d: int): (q: int)
    requires d > 0
    ensures a >= 0 ==> 0 <= a - q * d < d
    ensures a < 0 ==> -d < a - q * d <= 0
    ensures a - q * d == 0 <==> a % d == 0
    ensures a % d == 0 ==> q == a / d
  {
    TruncDivNegative(a, d);
    if a >= 0 then a / d else -((-a) / d)
  }

  /** For a negative `a`, the truncated remainder is zero exactly when the
      Euclidean one is, and the two quotients then agree. */
  lemma TruncDivNegative(a: int, d: int)
    requires d > 0
    ensures a < 0 ==> -d < a + (-a) / d * d <= 0
    ensures a < 0 ==> (a + (-a) / d * d == 0 <==> a % d == 0)
    ensures a < 0 && a % d == 0 ==> -((-a) / d) == a / d
  {
    if a < 0 {
      var k, r := (-a) / d, (-a) % d;
      assert -a == k * d + r;
      if r == 0 {
        DivModUnique(a, d, -k, 0);
      } else {
        DivModUnique(a, d, -k - 1, d - r);
      }
    }
  }

  /** `(byte) c` for a char: the low eight bits, read as a signed byte. */
  function ToByte(c: int): (b: Byte)
    ensures (b - c) % 256 == 0
    ensures 0 <= c < 128 ==> b == c
  {
    (c + 128) % 256 - 128
  }

  /** The byte of an ASCII character literal such as `'"'`. */
  function B(c: char): Byte
    requires c as int < 128
  {
    c as int
  }

  /** The bytes of an ASCII string literal such as `"null"`. */
  function Ascii(s: string): (r: seq<Byte>)
    requires forall i | 0 <= i < |s| :: s[i] as int < 128
    ensures |r| == |s|
    ensures forall i | 0 <= i < |s| :: r[i] == s[i] as int
  {
    if s == [] then [] else [B(s[0])] + Ascii(s[1..])
  }

  /** The UTF-16 code units of a string literal of the Basic Multilingual Plane. */
  function Str(s: string): (r: seq<Char>)
    requires forall i | 0 <= i < |s| :: s[i] as int < 0x1_0000
    ensures |r| == |s|
    ensures forall i | 0 <= i < |s| :: r[i] == s[i] as int
  {
    if s == [] then [] else [s[0] as int] + Str(s[1..])
  }

  /** The bytes of the literal `null`. */
  const NULL: seq<Byte> := ['n' as int, 'u' as int, 'l' as int, 'l' as int]

  // The structural bytes of JSON.
  const QUOTE: Byte := '"' as int
  const BACKSLASH: Byte := '\\' as int
  const COLON: Byte := ':' as int
  const COMMA: Byte := ',' as int
  const OBJECT_START: Byte := '{' as int
  const OBJECT_END: Byte := '}' as int
  const ARRAY_START: Byte := '[' as int
  const ARRAY_END: Byte := ']' as int
  const MINUS: Byte := '-' as int
  const PLUS: Byte := '+' as int

  predicate IsDigit(b: int) { '0' as int <= b <= '9' as int }

  /** The ASCII byte of a decimal digit. */
  function DigitByte(d: int): (b: Byte)
    requires 0 <= d < 10
    ensures IsDigit(b)
  {
    '0' as int + d
  }

  /** The exceptions the modelled code throws. The message omits the input
      position that the source appends. */
  datatype Error =
    | IOError(msg: string)
    | IllegalArgument(msg: string)
    | IndexOutOfBounds
    | Serialization(msg: string)
    | Configuration(msg: string)
    | NumberFormat(msg: string)
    | DateTimeInvalid

  datatype Option<+T> = None | Some(value: T)

  /** A value, or the exception that the Java code throws instead. */
  datatype Result<+T> = Ok(value: T) | Err(error: Error)
  {
    predicate IsFailure() { Err? }

    function PropagateFailure<U>(): Result<U>
      requires Err?
    {
      Err(error)
    }

    function Extract(): T
      requires Ok?
    {
      value
    }
  }

  /** A fact that is always true. A predicate whose body is stated under
      `Hold(())` opens only in a proof that writes `assert Hold(());`, which
      keeps large step functions out of the proofs that only pass it on. */
  predicate Hold(u: ()) { true }
}

/** The 32-bit FNV-1a hash the library uses for property names, over signed
    bytes: each byte is sign-extended before the exclusive or, as Java's
    `hash ^= b` on a `long` does. Only the low 32 bits survive the final
    `(int)` cast, so the hash is computed in `bv32`. */
module Fnv {
  import opened Java

  const OFFSET_BASIS: bv32 := 0x811c_9dc5
  const PRIME: bv32 := 0x0100_0193

  /** The low 32 bits of a sign-extended byte: the byte's eight bits, with
      the 24 bits above them set when it is negative. */
  function Widen(b: Byte): bv32 {
    var low := (if b < 0 then b + 0x100 else b) as bv8;
    if b < 0 then low as bv32 | 0xFFFF_FF00 else low as bv32
  }

  function Step(h: bv32, b: Byte): bv32 {
    (h ^ Widen(b)) * PRIME
  }

  /** The hash of a byte sequence, folded from the left. */
  function Hash(bs: seq<Byte>): bv32
    decreases |bs|
  {
    if bs == [] then OFFSET_BASIS else Step(Hash(bs[..|bs| - 1]), bs[|bs| - 1])
  }

  lemma HashSnoc(bs: seq<Byte>, b: Byte)
    ensures Hash(bs + [b]) == Step(Hash(bs), b)
  {
    assert (bs + [b])[..|bs|] == bs;
  }

  /** The weak hash generated converters compare first: the `int` sum of the
      name's signed bytes. */
  function WeakHash(bs: seq<Byte>): (h: int)
    ensures IsInt(h)
    decreases |bs|
  {
    if bs == [] then 0 else Int32(WeakHash(bs[..|bs| - 1]) + bs[|bs| - 1])
  }

  lemma WeakHashSnoc(bs: seq<Byte>, b: Byte)
    ensures WeakHash(bs + [b]) == Int32(WeakHash(bs) + b)
  {
    assert (bs + [b])[..|bs|] == bs;
  }
}

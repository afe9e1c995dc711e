/** The string codec as a whole: the reader's `parseString` decodes what the
    writer's `writeString` emits back to the original code units. The proof
    walks the escaped form unit by unit: each escape, UTF-8 sequence or plain
    byte the writer produces for a character is decoded by the matching branch
    of the reader's slow path, and the fast path copies exactly the units that
    are plain bytes. */
module StringCodec {
  import opened Java
  import opened ReaderSpec
  import JsonWriter

  // ---------------------------------------------------------------------
  // Arithmetic of the encodings

  /** A continuation byte `0x80 + v - 0x100` keeps its six payload bits. */
  lemma ContinuationBits(v: int)
    requires 0 <= v < 0x40
    ensures (0x80 + v - 0x100) % 64 == v
  {
    DivModUnique(0x80 + v - 0x100, 64, -2, v);
  }

  /** The hexadecimal digit the writer emits is read back as its value. */
  lemma HexRoundTrip(d: int)
    requires 0 <= d < 16
    ensures HexToInt(JsonWriter.HexUpper(d)) == Ok(d)
  {
  }

  /** The two UTF-8 bytes of a code point below U+0800 decode to it. */
  lemma TwoBytesDecode(cp: int)
    requires 0x80 <= cp <= 0x7FF
    ensures var b := JsonWriter.Utf8Bytes(cp);
      && |b| == 2 && b[0] < 0 && 0xC0 <= b[0] as int + 256 < 0xE0
      && TwoByteCodePoint(b[0] as int + 256, b[1]) == cp
  {
    var q1 := cp / 0x40;
    assert cp == q1 * 0x40 + cp % 0x40;
    DivModUnique(q1, 0x20, 0, q1);
    DivModUnique(0xC0 + q1, 32, 6, q1);
    ContinuationBits(cp % 0x40);
  }

  /** The three UTF-8 bytes of a code point from U+0800 to U+FFFF decode to it. */
  lemma ThreeBytesDecode(cp: int)
    requires 0x800 <= cp < 0x10000
    ensures var b := JsonWriter.Utf8Bytes(cp);
      && |b| == 3 && b[0] < 0 && 0xE0 <= b[0] as int + 256 < 0xF0
      && ThreeByteCodePoint(b[0] as int + 256, b[1], b[2]) == cp
  {
    var q1 := cp / 0x40;
    var q2 := q1 / 0x40;
    assert cp == q1 * 0x40 + cp % 0x40;
    assert q1 == q2 * 0x40 + q1 % 0x40;
    DivModUnique(q2, 0x10, 0, q2);
    DivModUnique(0xE0 + q2, 16, 14, q2);
    ContinuationBits(q1 % 0x40);
    ContinuationBits(cp % 0x40);
  }

  /** The four UTF-8 bytes of a supplementary code point decode to it. */
  lemma FourBytesDecode(cp: int)
    requires 0x10000 <= cp < 0x110000
    ensures var b := JsonWriter.Utf8Bytes(cp);
      && |b| == 4 && b[0] < 0 && 0xF0 <= b[0] as int + 256 < 0xF8
      && FourByteCodePoint(b[0] as int + 256, b[1], b[2], b[3]) == cp
  {
    var q1 := cp / 0x40;
    var q2 := q1 / 0x40;
    var q3 := q2 / 0x40;
    assert cp == q1 * 0x40 + cp % 0x40;
    assert q1 == q2 * 0x40 + q1 % 0x40;
    assert q2 == q3 * 0x40 + q2 % 0x40;
    DivModUnique(q3, 8, 0, q3);
    DivModUnique(0xF0 + q3, 8, 30, q3);
    ContinuationBits(q2 % 0x40);
    ContinuationBits(q1 % 0x40);
    ContinuationBits(cp % 0x40);
  }

  /** Splitting the code point of a surrogate pair gives the pair back. */
  lemma SurrogatesRoundTrip(hi: int, lo: int)
    requires JsonWriter.IsHighSurrogate(hi) && JsonWriter.IsLowSurrogate(lo)
    ensures var cp := (hi - 0xD800) * 0x400 + (lo - 0xDC00) + 0x10000;
      0x10000 <= cp < 0x110000 && SurrogatePair(cp) == [hi, lo]
  {
    DivModUnique((hi - 0xD800) * 0x400 + (lo - 0xDC00), 0x400, hi - 0xD800, lo - 0xDC00);
  }

  /** The decoder `sup` reads `str` back: the corrected one always, the one
      as written when no code unit of `str` is a surrogate, so that the
      writer emits no four-byte sequence for it. */
  predicate ReadsBack(sup: Supplementary, str: seq<Char>) {
    sup == PairOnly || forall i | 0 <= i < |str| :: !(0xD800 <= str[i] < 0xE000)
  }

  // ---------------------------------------------------------------------
  // One unit of the escaped form

  /** The bytes `bs` lie in the buffer from `at` on. */
  predicate BytesAt(buf: seq<Byte>, at: int, bs: seq<Byte>) {
    0 <= at && at + |bs| <= |buf| && forall k | 0 <= k < |bs| :: buf[at + k] == bs[k]
  }

  lemma BytesAtDrop(buf: seq<Byte>, at: int, bs: seq<Byte>, n: int)
    requires BytesAt(buf, at, bs) && 0 <= n <= |bs|
    ensures BytesAt(buf, at + n, bs[n..])
  {
    forall k | 0 <= k < |bs| - n
      ensures buf[at + n + k] == bs[n..][k]
    {
      assert buf[at + (n + k)] == bs[n + k];
    }
  }

  lemma BytesAtTake(buf: seq<Byte>, at: int, bs: seq<Byte>, n: int)
    requires BytesAt(buf, at, bs) && 0 <= n <= |bs|
    ensures BytesAt(buf, at, bs[..n])
  {
    forall k | 0 <= k < n
      ensures buf[at + k] == bs[..n][k]
    {
      assert buf[at + k] == bs[k];
    }
  }

  /** Bytes laid out one after the other lie each at its own offset. */
  lemma BytesAtSplit(buf: seq<Byte>, at: int, a: seq<Byte>, b: seq<Byte>)
    requires BytesAt(buf, at, a + b)
    ensures BytesAt(buf, at, a) && BytesAt(buf, at + |a|, b)
  {
    forall k | 0 <= k < |a|
      ensures buf[at + k] == a[k]
    {
      assert buf[at + k] == (a + b)[k];
    }
    forall k | 0 <= k < |b|
      ensures buf[at + |a| + k] == b[k]
    {
      assert buf[at + (|a| + k)] == (a + b)[|a| + k];
    }
  }

  /** A decoding step of the slow path succeeded with the code units `units`,
      left the cursor at `end` and kept the invariants the next step needs:
      the same input, a `chars` buffer of at least two slots that holds the
      units. */
  predicate DecodedTo(t: ReaderState, r: Result<Out<seq<Char>>>, units: seq<Char>, end: int) {
    && r.Ok? && r.value.value == units && r.value.st.currentIndex == end
    && Moves(t, r.value.st) && 2 <= r.value.st.charsLength && |units| <= r.value.st.charsLength
  }

  /** An escape that decodes to `e` is stored after `acc`. */
  lemma EscapeUnitStores(t: ReaderState, acc: seq<Char>, e: Out<Char>)
    requires t.Valid() && 2 <= t.charsLength && |acc| <= t.charsLength
    requires Escape(Grow(t, |acc| >= t.charsLength - 6)) == Ok(e)
    ensures DecodedTo(t, EscapeUnit(t, acc), acc + [e.value], e.st.currentIndex)
  {
    var g := Grow(t, |acc| >= t.charsLength - 6);
    assert PutAll(acc, g.charsLength, [e.value]) == Ok(acc + [e.value]);
  }

  /** A one-letter escape whose letter is at the cursor. */
  lemma SimpleEscapeDecodes(t: ReaderState, acc: seq<Char>, e: Byte, c: Char)
    requires t.Valid() && 2 <= t.charsLength && |acc| <= t.charsLength
    requires t.currentIndex < |t.buf| && t.buf[t.currentIndex] == e && SimpleEscape(e) == Some(c)
    ensures DecodedTo(t, EscapeUnit(t, acc), acc + [c], t.currentIndex + 1)
  {
    var g := Grow(t, |acc| >= t.charsLength - 6);
    assert Escape(g) == Ok(Out(c, g.(currentIndex := t.currentIndex + 1)));
    EscapeUnitStores(t, acc, Out(c, g.(currentIndex := t.currentIndex + 1)));
  }

  /** The four hexadecimal digits the writer puts after `\u` for a control
      character are read back as that character. */
  lemma UnicodeDigitsDecode(s: ReaderState, c: int)
    requires s.Valid() && 0 <= c < 32 && c !in {8, 9, 10, 12, 13}
    requires BytesAt(s.buf, s.currentIndex, JsonWriter.ControlEscape(c)[2..])
    ensures UnicodeEscape(s) == Ok(Out(c, s.(currentIndex := s.currentIndex + 4)))
  {
    var ci := s.currentIndex;
    var hi := if c < 16 then 0 else 1;
    var bs := JsonWriter.ControlEscape(c)[2..];
    assert bs == ['0' as int, '0' as int, '0' as int + hi, JsonWriter.HexUpper(c - 16 * hi)];
    assert s.buf[ci + 0] == bs[0] && s.buf[ci + 1] == bs[1];
    assert s.buf[ci + 2] == bs[2] && s.buf[ci + 3] == bs[3];
    HexRoundTrip(c - 16 * hi);
  }

  /** A `\u00XX` escape whose `u` is at the cursor, with the digits the
      writer emits for a control character. */
  lemma UnicodeEscapeDecodes(t: ReaderState, acc: seq<Char>, c: int)
    requires t.Valid() && 2 <= t.charsLength && |acc| <= t.charsLength
    requires 0 <= c < 32 && c !in {8, 9, 10, 12, 13}
    requires t.currentIndex < |t.buf| && t.buf[t.currentIndex] == 'u' as int
    requires BytesAt(t.buf, t.currentIndex + 1, JsonWriter.ControlEscape(c)[2..])
    ensures DecodedTo(t, EscapeUnit(t, acc), acc + [c], t.currentIndex + 5)
  {
    var ci := t.currentIndex;
    var g := Grow(t, |acc| >= t.charsLength - 6);
    var e := Out(c, g.(currentIndex := ci + 5));
    UnicodeDigitsDecode(g.(currentIndex := ci + 1), c);
    assert Escape(g) == Ok(e);
    EscapeUnitStores(t, acc, e);
  }

  /** The slow path decodes the escape or byte the writer emits for an ASCII
      character back to that character. `t` is the state just after the
      first byte of the unit was read. */
  lemma AsciiUnitDecodes(t: ReaderState, acc: seq<Char>, c: int, sup: Supplementary)
    requires t.Valid() && 2 <= t.charsLength && |acc| <= t.charsLength
    requires 0 <= c < 0x7F
    requires 1 <= t.currentIndex && BytesAt(t.buf, t.currentIndex - 1, JsonWriter.AsciiEscape(c))
    ensures var bs := JsonWriter.AsciiEscape(c);
      DecodedTo(t, DecodeUnit(t, bs[0], acc, sup), acc + [c], t.currentIndex - 1 + |bs|)
  {
    var bs := JsonWriter.AsciiEscape(c);
    assert t.buf[t.currentIndex - 1 + 0] == bs[0];
    if bs[0] == BACKSLASH {
      EscapedAsciiDecodes(t, acc, c);
    } else {
      assert bs == [c];
    }
  }

  /** `AsciiUnitDecodes` for a character the writer escapes. */
  lemma EscapedAsciiDecodes(t: ReaderState, acc: seq<Char>, c: int)
    requires t.Valid() && 2 <= t.charsLength && |acc| <= t.charsLength
    requires 0 <= c < 0x7F && JsonWriter.AsciiEscape(c)[0] == BACKSLASH
    requires 1 <= t.currentIndex && BytesAt(t.buf, t.currentIndex - 1, JsonWriter.AsciiEscape(c))
    ensures var bs := JsonWriter.AsciiEscape(c);
      DecodedTo(t, EscapeUnit(t, acc), acc + [c], t.currentIndex - 1 + |bs|)
  {
    var bs := JsonWriter.AsciiEscape(c);
    var ci := t.currentIndex;
    assert t.buf[ci - 1 + 1] == bs[1];
    if c == QUOTE || c == BACKSLASH || c in {8, 9, 10, 12, 13} {
      SimpleEscapeDecodes(t, acc, bs[1], c);
    } else {
      assert bs == JsonWriter.ControlEscape(c);
      BytesAtDrop(t.buf, ci - 1, bs, 2);
      UnicodeEscapeDecodes(t, acc, c);
    }
  }

  /** A UTF-8 sequence that decodes to `u` is stored after `acc`. */
  lemma Utf8UnitStores(t: ReaderState, acc: seq<Char>, bc: Byte, u: Out<seq<Char>>, sup: Supplementary)
    requires t.Valid() && 2 <= t.charsLength && |acc| <= t.charsLength && bc < 0
    requires Utf8(Grow(t, |acc| >= t.charsLength - 4), bc, sup) == Ok(u) && (|u.value| <= 2 || 3 <= t.charsLength)
    ensures DecodedTo(t, Utf8Unit(t, bc, acc, sup), acc + u.value, u.st.currentIndex)
  {
  }

  /** The bytes `Utf8Bytes(cp)` start at the byte just read. */
  predicate Utf8At(t: ReaderState, cp: int)
    requires 0x80 <= cp < 0x110000
  {
    1 <= t.currentIndex && BytesAt(t.buf, t.currentIndex - 1, JsonWriter.Utf8Bytes(cp))
  }

  lemma TwoByteUnitDecodes(t: ReaderState, acc: seq<Char>, cp: int, sup: Supplementary)
    requires t.Valid() && 2 <= t.charsLength && |acc| <= t.charsLength
    requires 0x80 <= cp <= 0x7FF && Utf8At(t, cp)
    ensures var b := JsonWriter.Utf8Bytes(cp);
      DecodedTo(t, DecodeUnit(t, b[0], acc, sup), acc + [cp], t.currentIndex + 1)
  {
    var b := JsonWriter.Utf8Bytes(cp);
    var ci := t.currentIndex;
    TwoBytesDecode(cp);
    assert t.buf[ci - 1 + 1] == b[1];
    var g := Grow(t, |acc| >= t.charsLength - 4);
    var u := Out([cp], g.(currentIndex := ci + 1));
    assert Utf8(g, b[0], sup) == Ok(u);
    Utf8UnitStores(t, acc, b[0], u, sup);
  }

  lemma ThreeByteUnitDecodes(t: ReaderState, acc: seq<Char>, cp: int, sup: Supplementary)
    requires t.Valid() && 2 <= t.charsLength && |acc| <= t.charsLength
    requires 0x800 <= cp < 0x10000 && Utf8At(t, cp)
    ensures var b := JsonWriter.Utf8Bytes(cp);
      DecodedTo(t, DecodeUnit(t, b[0], acc, sup), acc + [cp], t.currentIndex + 2)
  {
    var b := JsonWriter.Utf8Bytes(cp);
    var ci := t.currentIndex;
    ThreeBytesDecode(cp);
    assert t.buf[ci - 1 + 1] == b[1] && t.buf[ci - 1 + 2] == b[2];
    var g := Grow(t, |acc| >= t.charsLength - 4);
    var u := Out([cp], g.(currentIndex := ci + 2));
    assert Utf8(g, b[0], sup) == Ok(u);
    Utf8UnitStores(t, acc, b[0], u, sup);
  }

  /** The four bytes of a supplementary code point decode to its surrogate
      pair, followed as written by a stray unit, its low 16 bits. As written
      the three units need a `chars` buffer of three slots: with two, the
      buffer doubles to four while two units are held, and the third unit
      does not fit. */
  lemma FourByteUnitDecodes(t: ReaderState, acc: seq<Char>, cp: int, sup: Supplementary)
    requires t.Valid() && 2 <= t.charsLength && |acc| <= t.charsLength && (sup == PairOnly || 3 <= t.charsLength)
    requires 0x10000 <= cp < 0x110000 && Utf8At(t, cp)
    ensures var b := JsonWriter.Utf8Bytes(cp);
      DecodedTo(t, DecodeUnit(t, b[0], acc, sup), acc + SupplementaryUnits(cp, sup), t.currentIndex + 3)
  {
    FourBytesDecode(cp);
    FourBytesStore(t, acc, cp, JsonWriter.Utf8Bytes(cp), sup);
  }

  /** `FourByteUnitDecodes` over any four bytes that spell `cp`. */
  lemma FourBytesStore(t: ReaderState, acc: seq<Char>, cp: int, b: seq<Byte>, sup: Supplementary)
    requires t.Valid() && 2 <= t.charsLength && |acc| <= t.charsLength && (sup == PairOnly || 3 <= t.charsLength)
    requires 0x10000 <= cp < 0x110000 && 1 <= t.currentIndex && BytesAt(t.buf, t.currentIndex - 1, b)
    requires |b| == 4 && b[0] < 0 && 0xF0 <= b[0] as int + 256 < 0xF8
    requires FourByteCodePoint(b[0] as int + 256, b[1], b[2], b[3]) == cp
    ensures DecodedTo(t, DecodeUnit(t, b[0], acc, sup), acc + SupplementaryUnits(cp, sup), t.currentIndex + 3)
  {
    var ci := t.currentIndex;
    assert t.buf[ci - 1 + 1] == b[1] && t.buf[ci - 1 + 2] == b[2] && t.buf[ci - 1 + 3] == b[3];
    var g := Grow(t, |acc| >= t.charsLength - 4);
    var u := Out(SupplementaryUnits(cp, sup), g.(currentIndex := ci + 3));
    assert Utf8(g, b[0], sup) == Ok(u);
    Utf8UnitStores(t, acc, b[0], u, sup);
  }

  /** The slow path decodes each unit of the escaped form back to the code
      units it stands for: one character, or the two of a surrogate pair.
      `t` is the state just after the unit's first byte was read. */
  lemma UnitDecodes(t: ReaderState, str: seq<Char>, j: int, acc: seq<Char>, u: JsonWriter.Unit, sup: Supplementary)
    requires t.Valid() && 2 <= t.charsLength && |acc| <= t.charsLength && ReadsBack(sup, str)
    requires 0 <= j < |str| && JsonWriter.EscapeAt(str, j) == Ok(u)
    requires 1 <= t.currentIndex && BytesAt(t.buf, t.currentIndex - 1, u.bytes)
    ensures DecodedTo(t, DecodeUnit(t, u.bytes[0], acc, sup), acc + str[j..j + u.width], t.currentIndex - 1 + |u.bytes|)
  {
    if str[j] < 0x7F {
      AsciiUnitDecodes(t, acc, str[j], sup);
      assert str[j..j + 1] == [str[j]];
    } else {
      WideUnitDecodes(t, str, j, acc, u, sup);
    }
  }

  /** `UnitDecodes` for a character from U+007F up. */
  lemma WideUnitDecodes(t: ReaderState, str: seq<Char>, j: int, acc: seq<Char>, u: JsonWriter.Unit, sup: Supplementary)
    requires t.Valid() && 2 <= t.charsLength && |acc| <= t.charsLength && ReadsBack(sup, str)
    requires 0 <= j < |str| && str[j] >= 0x7F && JsonWriter.EscapeAt(str, j) == Ok(u)
    requires 1 <= t.currentIndex && BytesAt(t.buf, t.currentIndex - 1, u.bytes)
    ensures DecodedTo(t, DecodeUnit(t, u.bytes[0], acc, sup), acc + str[j..j + u.width], t.currentIndex - 1 + |u.bytes|)
  {
    var (cp, n) := JsonWriter.CodePointAt(str, j);
    if cp == 0x7F {
      assert u.bytes == [0x7F] && u.width == 1;
      assert str[j..j + 1] == [str[j]];
    } else if cp <= 0x7FF {
      TwoByteUnitDecodes(t, acc, cp, sup);
      assert str[j..j + 1] == [str[j]];
    } else if cp < 0x10000 {
      ThreeByteUnitDecodes(t, acc, cp, sup);
      assert str[j..j + 1] == [str[j]];
    } else {
      assert JsonWriter.IsHighSurrogate(str[j]) && sup == PairOnly;
      FourByteUnitDecodes(t, acc, cp, sup);
      SurrogatesRoundTrip(str[j], str[j + 1]);
      assert str[j..j + 2] == [str[j], str[j + 1]];
    }
  }

  /** A unit of the escaped form never starts with a quote, and when it
      starts with a byte the fast path copies, it is that one character. */
  lemma FirstByte(str: seq<Char>, j: int)
    requires 0 <= j < |str| && JsonWriter.EscapeAt(str, j).Ok?
    ensures var u := JsonWriter.EscapeAt(str, j).value;
      && u.bytes[0] != QUOTE
      && (IsPlain(u.bytes[0]) ==> u.bytes == [str[j]] && u.width == 1)
  {
    var u := JsonWriter.EscapeAt(str, j).value;
    if str[j] >= 0x7F {
      var (cp, n) := JsonWriter.CodePointAt(str, j);
      if cp > 0x7F {
        assert u.bytes == JsonWriter.Utf8Bytes(cp);
      }
    }
  }

  /** The slow path on a byte other than the quote decodes one unit and
      goes on from there. */
  lemma SlowPhaseStep(t: ReaderState, acc: seq<Char>, d: Out<seq<Char>>, sup: Supplementary)
    requires t.Valid() && t.currentIndex < t.length && t.buf[t.currentIndex] != QUOTE
    requires DecodeUnit(Read(t).value.st, t.buf[t.currentIndex], acc, sup) == Ok(d)
    ensures SlowPhase(t, acc, sup) == SlowPhase(d.st, d.value, sup)
  {
  }

  /** The slow path on the quote ends with what it has decoded. */
  lemma SlowPhaseEnd(t: ReaderState, acc: seq<Char>, sup: Supplementary)
    requires t.Valid() && t.currentIndex < t.length && t.buf[t.currentIndex] == QUOTE
    ensures SlowPhase(t, acc, sup) == Ok(Out(acc, t.(currentIndex := t.currentIndex + 1, last := QUOTE)))
  {
  }

  /** The slow path is at the unit for `str[j]` of the escaped form, which
      lies in the buffer followed by the closing quote, and has decoded the
      code units before it into a buffer with room for them. */
  predicate Pending(t: ReaderState, str: seq<Char>, j: int, acc: seq<Char>) {
    && t.Valid() && 2 <= t.charsLength && |acc| <= t.charsLength
    && 0 <= j <= |str| && JsonWriter.EscapeFrom(str, j).Ok? && acc == str[..j]
    && t.currentIndex + |JsonWriter.EscapeFrom(str, j).value| < t.length
    && BytesAt(t.buf, t.currentIndex, JsonWriter.EscapeFrom(str, j).value + [QUOTE])
  }

  lemma PendingAt(t: ReaderState, str: seq<Char>, j: int, acc: seq<Char>, e: seq<Byte>)
    requires t.Valid() && 2 <= t.charsLength && |acc| <= t.charsLength
    requires 0 <= j <= |str| && JsonWriter.EscapeFrom(str, j) == Ok(e) && acc == str[..j]
    requires t.currentIndex + |e| < t.length && BytesAt(t.buf, t.currentIndex, e + [QUOTE])
    ensures Pending(t, str, j, acc)
  {
  }

  /** Just after the closing quote. */
  function Closing(t: ReaderState, str: seq<Char>, j: int): int
    requires 0 <= j <= |str| && JsonWriter.EscapeFrom(str, j).Ok?
  {
    t.currentIndex + |JsonWriter.EscapeFrom(str, j).value| + 1
  }

  /** A unit and the rest of the escaped form after it, as they lie in the
      buffer. */
  lemma UnitInBuffer(buf: seq<Byte>, at: int, bytes: seq<Byte>, rest: seq<Byte>)
    requires 1 <= |bytes| && BytesAt(buf, at, bytes + rest + [QUOTE])
    ensures buf[at] == bytes[0]
    ensures BytesAt(buf, at, bytes)
    ensures BytesAt(buf, at + |bytes|, rest + [QUOTE])
  {
    var all := bytes + rest + [QUOTE];
    assert buf[at + 0] == all[0] == bytes[0];
    BytesAtTake(buf, at, all, |bytes|);
    assert all[..|bytes|] == bytes;
    BytesAtDrop(buf, at, all, |bytes|);
    assert all[|bytes|..] == rest + [QUOTE];
  }

  /** The escaped form from `j` on is the unit for `str[j]` followed by the
      escaped form after it. */
  lemma EscapeFromUnit(str: seq<Char>, j: int) returns (u: JsonWriter.Unit, rest: seq<Byte>)
    requires 0 <= j < |str| && JsonWriter.EscapeFrom(str, j).Ok?
    ensures JsonWriter.EscapeAt(str, j) == Ok(u) && 1 <= u.width && j + u.width <= |str|
    ensures JsonWriter.EscapeFrom(str, j + u.width) == Ok(rest)
    ensures JsonWriter.EscapeFrom(str, j).value == u.bytes + rest
    ensures 1 <= |u.bytes| && u.bytes[0] != QUOTE
  {
    u := JsonWriter.EscapeAt(str, j).value;
    rest := JsonWriter.EscapeFrom(str, j + u.width).value;
    FirstByte(str, j);
  }

  lemma PrefixExtend(str: seq<Char>, j: int, n: int)
    requires 0 <= j <= n <= |str|
    ensures str[..j] + str[j..n] == str[..n]
  {
  }

  /** The slow path decodes the unit `u` for `str[j]`, lying in the buffer
      ahead of the rest of the escaped form, and ends just after it. */
  lemma UnitStep(t: ReaderState, str: seq<Char>, j: int, acc: seq<Char>, u: JsonWriter.Unit, rest: seq<Byte>,
                 sup: Supplementary) returns (d: Out<seq<Char>>)
    requires t.Valid() && 2 <= t.charsLength && |acc| <= t.charsLength && ReadsBack(sup, str)
    requires 0 <= j < |str| && j + u.width <= |str| && acc == str[..j]
    requires JsonWriter.EscapeAt(str, j) == Ok(u) && 1 <= |u.bytes| && u.bytes[0] != QUOTE
    requires t.currentIndex + |u.bytes| + |rest| < t.length
    requires BytesAt(t.buf, t.currentIndex, u.bytes + rest + [QUOTE])
    ensures d.st.Valid() && d.st.buf == t.buf && d.st.length == t.length
    ensures d.st.currentIndex == t.currentIndex + |u.bytes|
    ensures 2 <= d.st.charsLength && |d.value| <= d.st.charsLength && d.value == str[..j + u.width]
    ensures BytesAt(d.st.buf, d.st.currentIndex, rest + [QUOTE])
    ensures SlowPhase(t, acc, sup) == SlowPhase(d.st, d.value, sup)
  {
    UnitInBuffer(t.buf, t.currentIndex, u.bytes, rest);
    var o := Read(t).value;
    UnitDecodes(o.st, str, j, acc, u, sup);
    d := DecodeUnit(o.st, u.bytes[0], acc, sup).value;
    PrefixExtend(str, j, j + u.width);
    SlowPhaseStep(t, acc, d, sup);
  }

  /** One unit of the slow path: it ends at the next unit, with its code
      units decoded. */
  lemma SlowStep(t: ReaderState, str: seq<Char>, j: int, acc: seq<Char>, sup: Supplementary)
    returns (d: Out<seq<Char>>, next: int)
    requires Pending(t, str, j, acc) && j < |str| && ReadsBack(sup, str)
    ensures j < next && Pending(d.st, str, next, d.value)
    ensures SlowPhase(t, acc, sup) == SlowPhase(d.st, d.value, sup)
    ensures Closing(t, str, j) == Closing(d.st, str, next)
  {
    var u, rest := EscapeFromUnit(str, j);
    next := j + u.width;
    d := UnitStep(t, str, j, acc, u, rest, sup);
    PendingAt(d.st, str, next, d.value, rest);
  }

  /** The slow path, started at the unit for `str[j]` with the code units
      before it decoded, decodes the rest of the escaped form and stops just
      after the closing quote. */
  lemma {:induction false} SlowRoundTrip(t: ReaderState, str: seq<Char>, j: int, acc: seq<Char>, sup: Supplementary)
    requires Pending(t, str, j, acc) && ReadsBack(sup, str)
    ensures var r := SlowPhase(t, acc, sup);
      && r.Ok? && r.value.value == str && r.value.st.currentIndex == Closing(t, str, j)
      && 2 <= r.value.st.charsLength
    decreases |str| - j
  {
    if j == |str| {
      var e := JsonWriter.EscapeFrom(str, j).value;
      assert t.buf[t.currentIndex + 0] == (e + [QUOTE])[0];
      assert str[..j] == str;
      SlowPhaseEnd(t, acc, sup);
    } else {
      var d, next := SlowStep(t, str, j, acc, sup);
      SlowRoundTrip(d.st, str, next, d.value, sup);
    }
  }

  // ---------------------------------------------------------------------
  // The fast path and the whole of parseString

  /** Where the slow path stands at the unit for `str[j]`: the closing
      quote when the string is done, a byte of a unit otherwise, with the
      closing quote still ahead. */
  lemma NextByte(t: ReaderState, str: seq<Char>, j: int, acc: seq<Char>)
    requires Pending(t, str, j, acc)
    ensures t.currentIndex < t.length
    ensures t.buf[t.currentIndex] == QUOTE <==> j == |str|
    ensures j < |str| ==> t.currentIndex + 1 < t.length
  {
    var e := JsonWriter.EscapeFrom(str, j).value;
    if j == |str| {
      assert t.buf[t.currentIndex + 0] == (e + [QUOTE])[0];
    } else {
      var u, rest := EscapeFromUnit(str, j);
      UnitInBuffer(t.buf, t.currentIndex, u.bytes, rest);
    }
  }

  /** One more byte copied as `(char) b`. */
  lemma CharsSnoc(buf: seq<Byte>, from: int, to: int)
    requires 0 <= from <= to < |buf| && 0 <= buf[to]
    ensures Chars(buf[from..to + 1]) == Chars(buf[from..to]) + [buf[to]]
  {
    var before := Chars(buf[from..to]);
    var after := Chars(buf[from..to + 1]);
    assert forall k | 0 <= k < to - from :: after[k] == before[k];
  }

  /** One byte fewer copied. */
  lemma CharsPrefix(buf: seq<Byte>, from: int, to: int)
    requires 0 <= from < to <= |buf|
    ensures Chars(buf[from..to - 1]) == Chars(buf[from..to])[..to - 1 - from]
  {
  }

  /** The fast path, with the cursor at `s`, has copied the bytes before
      the unit for `str[i]`, which lies `i` bytes ahead, and the escaped form
      is `n` bytes long. */
  predicate At(s: ReaderState, str: seq<Char>, i: int, n: int) {
    && 0 <= i <= |str|
    && Pending(s.(currentIndex := s.currentIndex + i), str, i, str[..i])
    && n == i + |JsonWriter.EscapeFrom(str, i).value|
  }

  /** The fast path has copied `i` plain bytes of the `n`-byte escaped form
      of `str`, each a character of `str` written as itself. */
  predicate Copying(s: ReaderState, str: seq<Char>, i: int, n: int) {
    && s.Valid() && 2 <= s.charsLength && i <= s.charsLength && s.currentIndex + i <= |s.buf|
    && At(s, str, i, n)
    && Chars(s.buf[s.currentIndex..s.currentIndex + i]) == str[..i]
    && (0 < i ==> At(s, str, i - 1, n))
  }

  /** A plain byte at the unit for `str[i]` is that character. */
  lemma CopyStep(s: ReaderState, str: seq<Char>, i: int, n: int)
    requires s.Valid() && At(s, str, i, n) && i < s.charsLength
    requires IsPlain(s.buf[s.currentIndex + i])
    ensures i < |str| && s.buf[s.currentIndex + i] == str[i] && At(s, str, i + 1, n)
  {
    var rest := PlainUnit(s.(currentIndex := s.currentIndex + i), str, i);
    PrefixExtend(str, i, i + 1);
    PendingAt(s.(currentIndex := s.currentIndex + i + 1), str, i + 1, str[..i + 1], rest);
  }

  /** The unit for `str[j]` starting with a plain byte is that one byte. */
  lemma PlainUnit(t: ReaderState, str: seq<Char>, j: int) returns (rest: seq<Byte>)
    requires 0 <= j <= |str| && Pending(t, str, j, str[..j]) && IsPlain(t.buf[t.currentIndex])
    ensures j < |str| && t.buf[t.currentIndex] == str[j]
    ensures JsonWriter.EscapeFrom(str, j).value == [str[j]] + rest
    ensures JsonWriter.EscapeFrom(str, j + 1) == Ok(rest)
    ensures t.currentIndex + 1 + |rest| < t.length && BytesAt(t.buf, t.currentIndex + 1, rest + [QUOTE])
  {
    NextByte(t, str, j, str[..j]);
    var u;
    u, rest := EscapeFromUnit(str, j);
    UnitInBuffer(t.buf, t.currentIndex, u.bytes, rest);
    FirstByte(str, j);
  }

  /** The fast path copies a plain byte and goes on. */
  lemma FastContinues(s: ReaderState, i: int)
    requires s.Valid() && 0 <= i <= s.charsLength && s.currentIndex + i <= |s.buf| && !FastStops(s, i)
    ensures FastPhase(s, i) == FastPhase(s, i + 1)
  {
  }

  /** After a handover the slow path gives the result. */
  lemma ResumeHandover(stop: Stop, t: ReaderState, units: seq<Char>, sup: Supplementary)
    requires stop == Handover(t, units) && t.Valid()
    ensures Resume(stop, sup) == SlowPhase(t, units, sup)
  {
  }

  /** The fast path stops on a full `chars` buffer and hands over at the
      last byte copied. */
  lemma FastFills(s: ReaderState, i: int)
    requires s.Valid() && 1 <= i == s.charsLength && s.currentIndex + i < s.length
    ensures FastPhase(s, i) == Handover(s.(currentIndex := s.currentIndex + i - 1), Chars(s.buf[s.currentIndex..s.currentIndex + i - 1]))
  {
  }

  /** The fast path stops on the closing quote. */
  lemma FastCloses(s: ReaderState, i: int)
    requires s.Valid() && 0 <= i < s.charsLength && s.currentIndex + i < |s.buf|
    requires s.buf[s.currentIndex + i] == QUOTE
    ensures FastPhase(s, i) == Finished(Ok(Out(Chars(s.buf[s.currentIndex..s.currentIndex + i]), s.(currentIndex := s.currentIndex + i + 1))))
  {
  }

  /** The fast path stops on a byte it does not copy and hands over there. */
  lemma FastHandsOver(s: ReaderState, i: int)
    requires s.Valid() && 0 <= i < s.charsLength && s.currentIndex + i + 1 < s.length
    requires s.buf[s.currentIndex + i] != QUOTE && !IsPlain(s.buf[s.currentIndex + i])
    ensures FastPhase(s, i) == Handover(s.(currentIndex := s.currentIndex + i), Chars(s.buf[s.currentIndex..s.currentIndex + i]))
  {
  }

  /** The fast path is done: the `chars` buffer is full, and the slow path
      takes over at the last byte copied. */
  lemma FastFull(s: ReaderState, str: seq<Char>, i: int, n: int, sup: Supplementary)
    requires s.Valid() && 2 <= s.charsLength && ReadsBack(sup, str) && i == s.charsLength && s.currentIndex + i < s.length
    requires i <= |str| && At(s, str, i - 1, n) && Chars(s.buf[s.currentIndex..s.currentIndex + i]) == str[..i]
    ensures var r := Resume(FastPhase(s, i), sup);
      && r.Ok? && r.value.value == str && r.value.st.currentIndex == s.currentIndex + n + 1
      && 2 <= r.value.st.charsLength && (r.value.st.last == QUOTE || r.value.st.last == s.last)
  {
    var ci := s.currentIndex;
    var h := s.(currentIndex := ci + (i - 1));
    AtClosing(s, str, i - 1, n);
    assert Pending(h, str, i - 1, str[..i - 1]);
    CharsPrefix(s.buf, ci, ci + i);
    assert str[..i][..i - 1] == str[..i - 1];
    FastFills(s, i);
    assert FastPhase(s, i) == Handover(h, str[..i - 1]);
    ResumeHandover(FastPhase(s, i), h, str[..i - 1], sup);
    SlowRoundTrip(h, str, i - 1, str[..i - 1], sup);
  }

  /** Where the slow path taking over after `j` characters closes the
      string. */
  lemma AtClosing(s: ReaderState, str: seq<Char>, j: int, n: int)
    requires At(s, str, j, n)
    ensures Closing(s.(currentIndex := s.currentIndex + j), str, j) == s.currentIndex + n + 1
  {
  }

  /** The fast path is done: it has reached the closing quote. */
  lemma FastQuote(s: ReaderState, str: seq<Char>, i: int, n: int, sup: Supplementary)
    requires s.Valid() && 2 <= s.charsLength && i < s.charsLength
    requires At(s, str, i, n) && Chars(s.buf[s.currentIndex..s.currentIndex + i]) == str[..i]
    requires s.buf[s.currentIndex + i] == QUOTE
    ensures var r := Resume(FastPhase(s, i), sup);
      && r.Ok? && r.value.value == str && r.value.st.currentIndex == s.currentIndex + n + 1
      && 2 <= r.value.st.charsLength && (r.value.st.last == QUOTE || r.value.st.last == s.last)
  {
    NextByte(s.(currentIndex := s.currentIndex + i), str, i, str[..i]);
    FastCloses(s, i);
    assert str[..i] == str;
  }

  /** The fast path is done: an escape or a multi-byte sequence starts, and
      the slow path takes over there. */
  lemma FastEscape(s: ReaderState, str: seq<Char>, i: int, n: int, sup: Supplementary)
    requires s.Valid() && 2 <= s.charsLength && ReadsBack(sup, str) && i < s.charsLength
    requires At(s, str, i, n) && Chars(s.buf[s.currentIndex..s.currentIndex + i]) == str[..i]
    requires s.buf[s.currentIndex + i] != QUOTE && !IsPlain(s.buf[s.currentIndex + i])
    ensures var r := Resume(FastPhase(s, i), sup);
      && r.Ok? && r.value.value == str && r.value.st.currentIndex == s.currentIndex + n + 1
      && 2 <= r.value.st.charsLength && (r.value.st.last == QUOTE || r.value.st.last == s.last)
  {
    var t := s.(currentIndex := s.currentIndex + i);
    NextByte(t, str, i, str[..i]);
    FastHandsOver(s, i);
    ResumeHandover(FastPhase(s, i), t, str[..i], sup);
    SlowRoundTrip(t, str, i, str[..i], sup);
  }

  /** The fast path copies one more plain byte. */
  lemma CopyingStep(s: ReaderState, str: seq<Char>, i: int, n: int)
    requires Copying(s, str, i, n) && !FastStops(s, i)
    ensures Copying(s, str, i + 1, n)
  {
    CopyStep(s, str, i, n);
    CharsGrow(s.buf, s.currentIndex, i, str);
  }

  /** Copying one more byte that equals the next character keeps the copied
      bytes equal to a prefix of `str`. */
  lemma CharsGrow(buf: seq<Byte>, from: int, i: int, str: seq<Char>)
    requires 0 <= from && 0 <= i < |str| && from + i < |buf|
    requires Chars(buf[from..from + i]) == str[..i] && buf[from + i] == str[i]
    ensures Chars(buf[from..from + i + 1]) == str[..i + 1]
  {
    CharsSnoc(buf, from, from + i);
    PrefixExtend(str, i, i + 1);
  }

  /** Wherever the fast path stops, the string comes back whole. */
  lemma FastStopRoundTrip(s: ReaderState, str: seq<Char>, i: int, n: int, sup: Supplementary)
    requires Copying(s, str, i, n) && FastStops(s, i) && ReadsBack(sup, str)
    ensures var r := Resume(FastPhase(s, i), sup);
      && r.Ok? && r.value.value == str && r.value.st.currentIndex == s.currentIndex + n + 1
      && 2 <= r.value.st.charsLength && (r.value.st.last == QUOTE || r.value.st.last == s.last)
  {
    var ci := s.currentIndex;
    NextByte(s.(currentIndex := ci + i), str, i, str[..i]);
    if i == s.charsLength {
      FastFull(s, str, i, n, sup);
    } else if s.buf[ci + i] == QUOTE {
      FastQuote(s, str, i, n, sup);
    } else {
      FastEscape(s, str, i, n, sup);
    }
  }

  /** The fast path, having copied `i` plain bytes, reads the rest of the
      escaped form, by itself or through the slow path, and stops just after
      the closing quote. */
  lemma {:induction false} FastRoundTrip(s: ReaderState, str: seq<Char>, i: int, n: int, sup: Supplementary)
    requires Copying(s, str, i, n) && ReadsBack(sup, str)
    ensures var r := Resume(FastPhase(s, i), sup);
      && r.Ok? && r.value.value == str && r.value.st.currentIndex == s.currentIndex + n + 1
      && 2 <= r.value.st.charsLength && (r.value.st.last == QUOTE || r.value.st.last == s.last)
    decreases s.charsLength - i
  {
    if !FastStops(s, i) {
      CopyingStep(s, str, i, n);
      FastContinues(s, i);
      FastRoundTrip(s, str, i + 1, n, sup);
    } else {
      FastStopRoundTrip(s, str, i, n, sup);
    }
  }

  /** `readSimpleQuote()` over a quoted token with no quote inside that
      fits the `tmp` buffer: the token starts at the cursor, the cursor
      stops just after the closing quote, and the bytes the loop copies
      into `tmp`, from `tokenStart` to before that quote, are the token's. */
  lemma SimpleQuoteRoundTrip(s: ReaderState, text: seq<Byte>, tmpLength: int)
    requires s.Valid() && s.last == QUOTE && 1 <= s.currentIndex
    requires |text| < tmpLength && forall k | 0 <= k < |text| :: text[k] != QUOTE
    requires BytesAt(s.buf, s.currentIndex - 1, [QUOTE] + text + [QUOTE])
    requires s.currentIndex + |text| + 1 <= s.length
    ensures ReadSimpleQuote(s, tmpLength) == Ok(s.(tokenStart := s.currentIndex, currentIndex := s.currentIndex + |text| + 1))
    ensures s.buf[s.currentIndex..s.currentIndex + |text|] == text
  {
    var q, ci := [QUOTE] + text + [QUOTE], s.currentIndex;
    var i := 0;
    while i < |text|
      invariant 0 <= i <= |text|
      invariant QuoteScan(s.buf, ci, 0, tmpLength) == QuoteScan(s.buf, ci + i, i, tmpLength)
    {
      assert s.buf[ci - 1 + (i + 1)] == q[i + 1];
      i := i + 1;
    }
    assert s.buf[ci - 1 + (|text| + 1)] == q[|text| + 1];
    forall k | 0 <= k < |text|
      ensures s.buf[ci..ci + |text|][k] == text[k]
    {
      assert s.buf[ci - 1 + (k + 1)] == q[k + 1];
    }
  }

  /** What `writeString` writes, `parseString` reads back: with the reader
      just after the opening quote, the string comes back whole and the
      cursor stops just after the closing quote. The temporary `char[]` must
      hold at least two code units. As written this holds for strings
      without surrogates; with the corrected 4-byte branch it holds for
      every string the writer accepts. */
  lemma ParseStringRoundTrip(s: ReaderState, str: seq<Char>, q: seq<Byte>, sup: Supplementary)
    requires s.Valid() && 2 <= s.charsLength && s.last == QUOTE && ReadsBack(sup, str)
    requires JsonWriter.QuotedString(str) == Ok(q)
    requires 1 <= s.currentIndex && BytesAt(s.buf, s.currentIndex - 1, q) && s.currentIndex - 1 + |q| <= s.length
    ensures var r := ParseStringWith(s, sup);
      && r.Ok? && r.value.value == str && r.value.st.currentIndex == s.currentIndex - 1 + |q|
      && 2 <= r.value.st.charsLength && r.value.st.last == QUOTE
  {
    var e := JsonWriter.Escaped(str).value;
    BytesAtDrop(s.buf, s.currentIndex - 1, q, 1);
    assert q[1..] == e + [QUOTE];
    assert s.(currentIndex := s.currentIndex + 0) == s;
    PendingAt(s, str, 0, [], e);
    assert Chars(s.buf[s.currentIndex..s.currentIndex]) == str[..0];
    FastRoundTrip(s, str, 0, |e|, sup);
  }
}

/** What each operation of the byte-level JSON scanner does, as a step
    function over the scanner's state: reading bytes, skipping whitespace
    (including the multi-byte Unicode spaces), matching literals, skipping
    values, decoding strings (escapes of section 7 of RFC 8259, UTF-8 of
    section 3 of RFC 3629) and hashing property names with 32-bit FNV-1a.
    The `JsonReader` class keeps the same state in fields, and its methods are
    proved to agree with these functions. */
module ReaderSpec {
  import opened Java
  import Fnv

  /** Everything a reader remembers. `charsLength` is the capacity of the
      reader's `chars` buffer, which decides where the fast path of string
      decoding stops; `lastHash` is the full hash of the last property name
      read with `FillNameWeakHash`. */
  datatype ReaderState = ReaderState(
    buf: seq<Byte>,
    length: int,
    currentIndex: int,
    last: Byte,
    tokenStart: int,
    nameEnd: int,
    lastHash: bv32,
    charsLength: int)
  {
    predicate Valid() {
      && 0 <= length <= |buf|
      && 0 <= currentIndex <= |buf|
      && -1 <= tokenStart <= |buf|
      && 0 <= nameEnd <= |buf|
      && 1 <= charsLength
    }
  }

  /** A value together with the reader state after producing it. */
  datatype Out<+T> = Out(value: T, st: ReaderState)

  /** `t` is a later state of the same input: the cursor has not moved back. */
  predicate Moves(s: ReaderState, t: ReaderState) {
    t.Valid() && t.buf == s.buf && t.length == s.length && t.currentIndex >= s.currentIndex
  }

  // ---------------------------------------------------------------------
  // Reading bytes and skipping whitespace

  /** `read()`: the next byte, which also becomes `last`. */
  function Read(s: ReaderState): (r: Result<Out<Byte>>)
    requires s.Valid()
    ensures r.Ok? ==> Moves(s, r.value.st) && r.value.st.currentIndex == s.currentIndex + 1
  {
    if s.currentIndex >= s.length then Err(IOError("Unexpected end of JSON input"))
    else
      var b := s.buf[s.currentIndex];
      Ok(Out(b, s.(currentIndex := s.currentIndex + 1, last := b)))
  }

  /** The bytes the whitespace table marks: ASCII whitespace 9-13 and 32, and
      the lead bytes of the encoded Unicode spaces (0xA0, 0xE1, 0xE2, 0xE3). */
  predicate IsWhitespace(b: int) {
    b in {9, 10, 11, 12, 13, 32, -96, -31, -30, -29}
  }

  /** Second bytes after 0xE2 0x80 that complete a Unicode space
      (U+2000..U+200A, U+2028, U+2029, U+202F). */
  predicate IsE280Space(b: int) {
    -128 <= b <= -118 || b in {-88, -87, -81}
  }

  function SkipTwo(s: ReaderState): ReaderState {
    s.(currentIndex := s.currentIndex + 2, last := ' ' as int)
  }

  /** `wasWhiteSpace()`: is `last` whitespace? For a multi-byte space the two
      continuation bytes are consumed and `last` becomes a blank. */
  function WasWhiteSpace(s: ReaderState): (r: Out<bool>)
    requires s.Valid()
    ensures Moves(s, r.st)
    ensures r.st == s || (r.value && r.st == SkipTwo(s))
    ensures r.value ==> IsWhitespace(s.last)
  {
    var ci := s.currentIndex;
    if s.last in {9, 10, 11, 12, 13, 32, -96} then Out(true, s)
    else if s.last == -31 then
      if ci + 1 < s.length && s.buf[ci] == -102 && s.buf[ci + 1] == -128 then Out(true, SkipTwo(s))
      else Out(false, s)
    else if s.last == -30 then
      if ci + 1 < s.length then
        var b1, b2 := s.buf[ci], s.buf[ci + 1];
        if b1 == -127 && b2 == -97 then Out(true, SkipTwo(s))
        else if b1 != -128 then Out(false, s)
        else if IsE280Space(b2) then Out(true, SkipTwo(s))
        else Out(false, s)
      else Out(false, s)
    else if s.last == -29 then
      if ci + 1 < s.length && s.buf[ci] == -128 && s.buf[ci + 1] == -128 then Out(true, SkipTwo(s))
      else Out(false, s)
    else Out(false, s)
  }

  /** The `while (wasWhiteSpace()) read();` loop of `getNextToken`. */
  function SkipWhitespace(s: ReaderState): (r: Result<Out<Byte>>)
    requires s.Valid()
    ensures r.Ok? ==> Moves(s, r.value.st) && r.value.value == r.value.st.last
    decreases |s.buf| - s.currentIndex
  {
    var w := WasWhiteSpace(s);
    if w.value then
      var o :- Read(w.st);
      SkipWhitespace(o.st)
    else Ok(Out(s.last, s))
  }

  /** `getNextToken()`: read a byte and skip whitespace after it. */
  function NextToken(s: ReaderState): (r: Result<Out<Byte>>)
    requires s.Valid()
    ensures r.Ok? ==> Moves(s, r.value.st) && r.value.st.currentIndex > s.currentIndex
    ensures r.Ok? ==> r.value.value == r.value.st.last
  {
    var o :- Read(s);
    if IsWhitespace(o.value) then SkipWhitespace(o.st) else Ok(o)
  }

  lemma {:induction false} SkipWhitespaceStops(s: ReaderState)
    requires s.Valid() && SkipWhitespace(s).Ok?
    ensures !WasWhiteSpace(SkipWhitespace(s).value.st).value
    decreases |s.buf| - s.currentIndex
  {
    var w := WasWhiteSpace(s);
    if w.value {
      SkipWhitespaceStops(Read(w.st).value.st);
    }
  }

  /** `getNextToken` returns a byte that `wasWhiteSpace` rejects, it is the
      new `last`, and the cursor has moved forward. */
  lemma NextTokenIsNotWhitespace(s: ReaderState)
    requires s.Valid() && NextToken(s).Ok?
    ensures var o := NextToken(s).value;
      && !WasWhiteSpace(o.st).value
      && o.value == o.st.last
      && o.st.currentIndex > s.currentIndex
  {
    var o := Read(s).value;
    if IsWhitespace(o.value) {
      SkipWhitespaceStops(o.st);
    }
  }

  /** A byte outside the whitespace table that follows the cursor is the next
      token, whatever else is in the buffer. */
  lemma NextTokenPlain(s: ReaderState)
    requires s.Valid() && s.currentIndex < s.length && !IsWhitespace(s.buf[s.currentIndex])
    ensures NextToken(s) == Ok(Out(s.buf[s.currentIndex],
      s.(currentIndex := s.currentIndex + 1, last := s.buf[s.currentIndex])))
  {
  }

  // ---------------------------------------------------------------------
  // Numbers

  predicate IsNumberEnd(b: int) { b == COMMA || b == OBJECT_END || b == ARRAY_END }

  /** Where `scanNumber` stops: the first `,`, `}` or `]` before `length`. */
  function NumberEnd(buf: seq<Byte>, length: int, i: int): (j: int)
    requires 0 <= i <= |buf| && length <= |buf|
    ensures i <= j <= |buf| && (j == i || j <= length)
    ensures forall k | i <= k < j :: !IsNumberEnd(buf[k])
    ensures j < length ==> IsNumberEnd(buf[j])
    ensures i < length ==> j <= length
    decreases |buf| - i
  {
    if i >= length || IsNumberEnd(buf[i]) then i else NumberEnd(buf, length, i + 1)
  }

  /** `scanNumber()`: the token that began with `last` runs up to the next
      `,`, `}` or `]`; the cursor stops on that byte, which becomes `last`. */
  function ScanNumber(s: ReaderState): (r: Out<int>)
    requires s.Valid()
  {
    var j := NumberEnd(s.buf, s.length, s.currentIndex);
    var last := if j < s.length then s.buf[j]
      else if s.currentIndex < s.length then s.buf[s.length - 1]
      else s.last;
    Out(s.currentIndex - 1, s.(tokenStart := s.currentIndex - 1, currentIndex := j, last := last))
  }

  /** `allWhitespace(start, end)`. */
  predicate AllWhitespace(buf: seq<Byte>, start: int, end: int)
    requires 0 <= start && end <= |buf|
  {
    forall k | start <= k < end :: IsWhitespace(buf[k])
  }

  /** `findNonWhitespace(end)`: one past the last byte before `end` that is
      not whitespace, looking no further back than index 1; 0 when there is
      none. */
  function FindNonWhitespace(buf: seq<Byte>, end: int): (r: int)
    requires end <= |buf|
    ensures 0 <= r && (r == 0 || (1 < r <= end && !IsWhitespace(buf[r - 1])))
    ensures forall k | r <= k < end && 1 <= k :: IsWhitespace(buf[k])
    decreases end
  {
    if end <= 1 then 0
    else if !IsWhitespace(buf[end - 1]) then end
    else FindNonWhitespace(buf, end - 1)
  }

  /** `prepareBuffer(start)`: the `chars` buffer doubles until it can hold
      the input from `start` to `length`, which is then copied into it. Only
      the capacity is part of the state. */
  function PrepareBuffer(s: ReaderState, start: int): (t: ReaderState)
    requires s.Valid()
    ensures t.Valid() && t == s.(charsLength := t.charsLength)
    ensures t.charsLength >= s.charsLength && t.charsLength >= s.length - start
    decreases s.length - start - s.charsLength
  {
    if s.charsLength < s.length - start then PrepareBuffer(s.(charsLength := 2 * s.charsLength), start)
    else s
  }

  /** The loop of `readSimpleQuote()`: at most `tmpLength` bytes from `ci`,
      stopping after a quote; the index it stops at. Running off the buffer
      is an unclosed string. */
  function QuoteScan(buf: seq<Byte>, ci: int, i: int, tmpLength: int): (r: Result<int>)
    requires 0 <= ci <= |buf|
    ensures r.Ok? ==> ci <= r.value <= |buf|
    decreases tmpLength - i
  {
    if i >= tmpLength then Ok(ci)
    else if ci >= |buf| then Err(IOError(NOT_CLOSED))
    else if buf[ci] == QUOTE then Ok(ci + 1)
    else QuoteScan(buf, ci + 1, i + 1, tmpLength)
  }

  /** `readSimpleQuote()` with a `tmp` buffer of `tmpLength` characters: the
      token starts at the cursor, which moves past the closing quote, or by
      `tmpLength` bytes when no quote comes first. */
  function ReadSimpleQuote(s: ReaderState, tmpLength: int): (r: Result<ReaderState>)
    requires s.Valid()
    ensures r.Ok? ==> Moves(s, r.value) && r.value == s.(currentIndex := r.value.currentIndex, tokenStart := s.currentIndex)
    ensures r.Ok? ==> r.value.currentIndex <= s.length
    ensures s.last != QUOTE ==> r == Err(IOError("Expecting '\"'"))
  {
    if s.last != QUOTE then Err(IOError("Expecting '\"'"))
    else
      var ci :- QuoteScan(s.buf, s.currentIndex, 0, tmpLength);
      if ci > s.length then Err(IOError(NOT_CLOSED))
      else Ok(s.(tokenStart := s.currentIndex, currentIndex := ci))
  }

  // ---------------------------------------------------------------------
  // Literals

  function Literal(s: ReaderState, first: char, rest: string, after: char, err: string): (r: Result<Out<bool>>)
    requires s.Valid()
    requires first as int < 128 && after as int < 128
    requires forall i | 0 <= i < |rest| :: rest[i] as int < 128
    ensures r.Ok? ==> Moves(s, r.value.st)
    ensures r.Ok? && !r.value.value ==> r.value.st == s
    ensures r.Ok? && r.value.value ==> r.value.st == s.(currentIndex := s.currentIndex + |rest|, last := after as int)
  {
    var ci := s.currentIndex;
    if s.last != first as int then Ok(Out(false, s))
    else if ci + |rest| - 1 < s.length && s.buf[ci..ci + |rest|] == Ascii(rest) then
      Ok(Out(true, s.(currentIndex := ci + |rest|, last := after as int)))
    else Err(IOError(err))
  }

  /** `wasNull()`. */
  function WasNull(s: ReaderState): (r: Result<Out<bool>>)
    requires s.Valid()
    ensures r.Ok? ==> Moves(s, r.value.st)
  {
    Literal(s, 'n', "ull", 'l', "Invalid null value found")
  }

  /** `wasTrue()`. */
  function WasTrue(s: ReaderState): (r: Result<Out<bool>>)
    requires s.Valid()
    ensures r.Ok? ==> Moves(s, r.value.st)
  {
    Literal(s, 't', "rue", 'e', "Invalid boolean value found")
  }

  /** `wasFalse()`. */
  function WasFalse(s: ReaderState): (r: Result<Out<bool>>)
    requires s.Valid()
    ensures r.Ok? ==> Moves(s, r.value.st)
  {
    Literal(s, 'f', "alse", 'e', "Invalid boolean value found")
  }

  /** A literal is recognised exactly: no input when the first letter differs,
      exactly the rest of the word when it matches, an error otherwise. */
  lemma WasNullExact(s: ReaderState)
    requires s.Valid()
    ensures s.last != 'n' as int ==> WasNull(s) == Ok(Out(false, s))
    ensures s.last == 'n' as int && WasNull(s).Ok? ==>
      && WasNull(s).value.value
      && s.currentIndex + 3 <= s.length
      && s.buf[s.currentIndex..s.currentIndex + 3] == Ascii("ull")
      && WasNull(s).value.st.currentIndex == s.currentIndex + 3
      && WasNull(s).value.st.last == 'l' as int
    ensures (s.last == 'n' as int && s.currentIndex + 3 <= s.length
             && s.buf[s.currentIndex..s.currentIndex + 3] == Ascii("ull")) ==> WasNull(s).Ok?
  {
  }

  // ---------------------------------------------------------------------
  // Property names

  /** The number of bytes from `i` to the first quote (or to the end of the
      buffer when there is none). */
  function NameLength(buf: seq<Byte>, i: int): (n: int)
    requires 0 <= i <= |buf|
    ensures 0 <= n && i + n <= |buf|
    ensures forall k | i <= k < i + n :: buf[k] != QUOTE
    ensures i + n < |buf| ==> buf[i + n] == QUOTE
    decreases |buf| - i
  {
    if i == |buf| || buf[i] == QUOTE then 0 else 1 + NameLength(buf, i + 1)
  }

  /** `calcHash()`: hash the name after the opening quote. The scan is bounded
      by the buffer, not by `length`; `tokenStart` and `nameEnd` bracket the
      name and its closing quote. */
  function CalcHash(s: ReaderState): (r: Result<Out<bv32>>)
    requires s.Valid()
    ensures r.Ok? ==> Moves(s, r.value.st)
    ensures r.Ok? ==> r.value.st.tokenStart == s.currentIndex <= r.value.st.nameEnd
  {
    if s.last != QUOTE then Err(IOError("Expecting '\"'"))
    else
      var n := NameLength(s.buf, s.currentIndex);
      var ci := if s.currentIndex + n < |s.buf| then s.currentIndex + n + 1 else |s.buf|;
      var h := Fnv.Hash(s.buf[s.currentIndex..s.currentIndex + n]);
      Ok(Out(h, s.(tokenStart := s.currentIndex, nameEnd := ci, currentIndex := ci)))
  }

  /** The name `calcHash` hashed: the bytes between the quotes. */
  function LastName(s: ReaderState): seq<Byte>
    requires s.Valid() && 0 <= s.tokenStart <= s.nameEnd
  {
    if s.tokenStart < s.nameEnd then s.buf[s.tokenStart..s.nameEnd - 1] else []
  }

  /** When a closing quote follows, `calcHash` returns the FNV-1a hash of the
      bytes before it, `tokenStart` is where the name begins and the cursor
      and `nameEnd` are just past the quote. */
  lemma CalcHashClosed(s: ReaderState, q: int)
    requires s.Valid() && s.last == QUOTE
    requires s.currentIndex <= q < |s.buf| && s.buf[q] == QUOTE
    requires forall k | s.currentIndex <= k < q :: s.buf[k] != QUOTE
    ensures CalcHash(s) == Ok(Out(Fnv.Hash(s.buf[s.currentIndex..q]),
      s.(tokenStart := s.currentIndex, nameEnd := q + 1, currentIndex := q + 1)))
    ensures LastName(CalcHash(s).value.st) == s.buf[s.currentIndex..q]
  {
    var n := NameLength(s.buf, s.currentIndex);
    assert s.currentIndex + n == q;
  }

  /** Without a closing quote the scan runs to the end of the buffer, past
      `length`, and fails only later, when `:` is read. */
  lemma CalcHashUnclosed(s: ReaderState)
    requires s.Valid() && s.last == QUOTE
    requires forall k | s.currentIndex <= k < |s.buf| :: s.buf[k] != QUOTE
    ensures CalcHash(s) == Ok(Out(Fnv.Hash(s.buf[s.currentIndex..]),
      s.(tokenStart := s.currentIndex, nameEnd := |s.buf|, currentIndex := |s.buf|)))
  {
    var n := NameLength(s.buf, s.currentIndex);
    assert s.currentIndex + n == |s.buf|;
    assert s.buf[s.currentIndex..s.currentIndex + n] == s.buf[s.currentIndex..];
  }

  /** Both cases together: `q` is the first quote after the cursor, or the
      end of the buffer when there is none. */
  lemma CalcHashAt(s: ReaderState, q: int)
    requires s.Valid() && s.last == QUOTE
    requires s.currentIndex <= q <= |s.buf|
    requires forall k | s.currentIndex <= k < q :: s.buf[k] != QUOTE
    requires q < |s.buf| ==> s.buf[q] == QUOTE
    ensures var e := if q < |s.buf| then q + 1 else q;
      CalcHash(s) == Ok(Out(Fnv.Hash(s.buf[s.currentIndex..q]),
        s.(tokenStart := s.currentIndex, nameEnd := e, currentIndex := e)))
  {
    if q < |s.buf| {
      CalcHashClosed(s, q);
    } else {
      CalcHashUnclosed(s);
      assert s.buf[s.currentIndex..] == s.buf[s.currentIndex..q];
    }
  }

  /** The tail `fillName` shares with `fillNameWeakHash`: the `:` after a
      name, possibly preceded by whitespace. */
  function ExpectColon(s: ReaderState): (r: Result<ReaderState>)
    requires s.Valid()
    ensures r.Ok? ==> Moves(s, r.value) && r.value.currentIndex > s.currentIndex && r.value.last == COLON
  {
    var o :- Read(s);
    if o.value == COLON then Ok(o.st)
    else
      var w := WasWhiteSpace(o.st);
      if !w.value then Err(IOError("Expecting ':'"))
      else
        var t :- NextToken(w.st);
        if t.value != COLON then Err(IOError("Expecting ':'")) else Ok(t.st)
  }

  /** `fillName()`: hash the name and consume the `:` after it. */
  function FillName(s: ReaderState): (r: Result<Out<bv32>>)
    requires s.Valid()
    ensures r.Ok? ==> Moves(s, r.value.st) && r.value.st.last == COLON
  {
    var h :- CalcHash(s);
    var t :- ExpectColon(h.st);
    Ok(Out(h.value, t))
  }

  /** `fillNameWeakHash()` (used by the runtime object decoder; the reader
      version shown does not define it): like `fillName`, but returns the weak
      hash of the name and remembers its full hash for `getLastHash()`. */
  function FillNameWeakHash(s: ReaderState): (r: Result<Out<int>>)
    requires s.Valid()
    ensures r.Ok? ==> Moves(s, r.value.st) && r.value.st.last == COLON
  {
    var h :- CalcHash(s);
    var weak := Fnv.WeakHash(LastName(h.st));
    var t :- ExpectColon(h.st.(lastHash := h.value));
    Ok(Out(weak, t))
  }

  /** `wasLastName(name)`: the last name read has exactly the characters of
      `name`, compared with the buffer's signed bytes. After a number scan at
      the very start `tokenStart` is -1, and a non-empty name of the right
      length then indexes before the buffer. */
  function WasLastName(s: ReaderState, name: seq<Char>): (r: Result<bool>)
    requires s.Valid()
    ensures r.Err? <==> |name| == s.nameEnd - s.tokenStart - 1 && 0 < |name| && s.tokenStart < 0
    ensures r.Ok? ==> (r.value <==>
      && |name| == s.nameEnd - s.tokenStart - 1
      && forall i | 0 <= i < |name| :: name[i] == s.buf[s.tokenStart + i])
  {
    if |name| != s.nameEnd - s.tokenStart - 1 then Ok(false)
    else if 0 < |name| && s.tokenStart < 0 then Err(IndexOutOfBounds)
    else Ok(forall i | 0 <= i < |name| :: name[i] == s.buf[s.tokenStart + i])
  }

  /** On a name of non-negative bytes, `wasLastName` holds exactly for the
      characters of those bytes. */
  lemma WasLastNameExact(t: ReaderState, name: seq<Char>)
    requires t.Valid() && 0 <= t.tokenStart < t.nameEnd
    requires forall k | t.tokenStart <= k < t.nameEnd - 1 :: 0 <= t.buf[k]
    ensures WasLastName(t, name) == Ok(name == Chars(t.buf[t.tokenStart..t.nameEnd - 1]))
  {
    var bytes := Chars(t.buf[t.tokenStart..t.nameEnd - 1]);
    if |name| == |bytes| {
      if name == bytes {
        assert forall i | 0 <= i < |name| :: name[i] == t.buf[t.tokenStart + i];
      } else {
        var i :| 0 <= i < |name| && name[i] != bytes[i];
        assert name[i] != t.buf[t.tokenStart + i];
      }
    }
  }

  /** After `calcHash` over a closed name, `wasLastName` holds exactly for the
      characters of that name's bytes. */
  lemma WasLastNameAfterCalcHash(s: ReaderState, q: int, name: seq<Char>)
    requires s.Valid() && s.last == QUOTE
    requires s.currentIndex <= q < |s.buf| && s.buf[q] == QUOTE
    requires forall k | s.currentIndex <= k < q :: s.buf[k] != QUOTE
    requires forall k | s.currentIndex <= k < q :: 0 <= s.buf[k]
    ensures CalcHash(s).Ok?
    ensures WasLastName(CalcHash(s).value.st, name) == Ok(name == Chars(s.buf[s.currentIndex..q]))
  {
    CalcHashClosed(s, q);
    WasLastNameExact(CalcHash(s).value.st, name);
  }

  // ---------------------------------------------------------------------
  // Skipping values

  /** The loop of `skipString()` after its first `read()`: stop at a quote
      that is not escaped, then move to the next token. */
  function SkipStringRest(s: ReaderState, c: Byte, inEscape: bool): (r: Result<Out<Byte>>)
    requires s.Valid()
    ensures r.Ok? ==> Moves(s, r.value.st) && r.value.value == r.value.st.last
    decreases |s.buf| - s.currentIndex
  {
    if c == QUOTE && !inEscape then NextToken(s)
    else
      var escape := !inEscape && c == BACKSLASH;
      var o :- Read(s);
      SkipStringRest(o.st, o.value, escape)
  }

  /** `skipString()`: skip the rest of a string and return the next token. */
  function SkipString(s: ReaderState): (r: Result<Out<Byte>>)
    requires s.Valid()
    ensures r.Ok? ==> Moves(s, r.value.st) && r.value.st.currentIndex > s.currentIndex
    ensures r.Ok? ==> r.value.value == r.value.st.last
  {
    var o :- Read(s);
    SkipStringRest(o.st, o.value, false)
  }

  /** The final loop of `skip()`: read until `,`, `}` or `]`. */
  function SkipPlain(s: ReaderState): (r: Result<Out<Byte>>)
    requires s.Valid()
    ensures r.Ok? ==> Moves(s, r.value.st) && r.value.value == r.value.st.last
    ensures r.Ok? ==> IsNumberEnd(r.value.value)
    decreases |s.buf| - s.currentIndex
  {
    if IsNumberEnd(s.last) then Ok(Out(s.last, s))
    else
      var o :- Read(s);
      SkipPlain(o.st)
  }

  /** `skip()`: skip the value that starts with `last` and return the token
      after it. Objects and arrays are skipped recursively. */
  function Skip(s: ReaderState): (r: Result<Out<Byte>>)
    requires s.Valid()
    ensures r.Ok? ==> Moves(s, r.value.st) && r.value.value == r.value.st.last
    decreases |s.buf| - s.currentIndex, 3
  {
    if s.last == QUOTE then SkipString(s)
    else if s.last == OBJECT_START then SkipObject(s)
    else if s.last == ARRAY_START then SkipArray(s)
    else if s.last == 'n' as int then
      var w :- WasNull(s);
      if !w.value then Err(IOError("Expecting 'null'")) else NextToken(w.st)
    else if s.last == 't' as int then
      var w :- WasTrue(s);
      if !w.value then Err(IOError("Expecting 'true'")) else NextToken(w.st)
    else if s.last == 'f' as int then
      var w :- WasFalse(s);
      if !w.value then Err(IOError("Expecting 'false'")) else NextToken(w.st)
    else SkipPlain(s)
  }

  /** The object branch of `skip()`, entered on `{`. */
  function SkipObject(s: ReaderState): (r: Result<Out<Byte>>)
    requires s.Valid()
    ensures r.Ok? ==> Moves(s, r.value.st) && r.value.value == r.value.st.last
    decreases |s.buf| - s.currentIndex, 2
  {
    var t :- NextToken(s);
    if t.value == OBJECT_END then NextToken(t.st)
    else if t.value != QUOTE then Err(IOError("Expecting '\"'"))
    else
      var n :- SkipMember(t.st);
      SkipMembers(n.st, n.value, s.currentIndex)
  }

  /** One member of an object, after the quote that opens its name: the
      name, the colon and the value. Returns the token after the value. */
  function SkipMember(s: ReaderState): (r: Result<Out<Byte>>)
    requires s.Valid()
    ensures r.Ok? ==> Moves(s, r.value.st) && r.value.st.currentIndex > s.currentIndex
    ensures r.Ok? ==> r.value.value == r.value.st.last
    decreases |s.buf| - s.currentIndex, 1
  {
    var k :- SkipString(s);
    if k.value != COLON then Err(IOError("Expecting ':'"))
    else
      var v :- NextToken(k.st);
      Skip(v.st)
  }

  /** The array branch of `skip()`, entered on `[`. */
  function SkipArray(s: ReaderState): (r: Result<Out<Byte>>)
    requires s.Valid()
    ensures r.Ok? ==> Moves(s, r.value.st) && r.value.value == r.value.st.last
    decreases |s.buf| - s.currentIndex, 2
  {
    var t :- NextToken(s);
    var n :- Skip(t.st);
    SkipElements(n.st, n.value, s.currentIndex)
  }

  /** The member loop of `skip()` on an object; `from` is where the object
      began, before the current state. */
  function SkipMembers(s: ReaderState, token: Byte, from: int): (r: Result<Out<Byte>>)
    requires s.Valid() && from < s.currentIndex
    ensures r.Ok? ==> Moves(s, r.value.st) && r.value.value == r.value.st.last
    decreases |s.buf| - from, 1, |s.buf| - s.currentIndex
  {
    if token == COMMA then
      var t :- NextToken(s);
      if t.value != QUOTE then Err(IOError("Expecting '\"'"))
      else
        var n :- SkipMember(t.st);
        SkipMembers(n.st, n.value, from)
    else if token != OBJECT_END then Err(IOError("Expecting '}'"))
    else NextToken(s)
  }

  /** The element loop of `skip()` on an array. */
  function SkipElements(s: ReaderState, token: Byte, from: int): (r: Result<Out<Byte>>)
    requires s.Valid() && from < s.currentIndex
    ensures r.Ok? ==> Moves(s, r.value.st) && r.value.value == r.value.st.last
    decreases |s.buf| - from, 1, |s.buf| - s.currentIndex
  {
    if token == COMMA then
      var t :- NextToken(s);
      var n :- Skip(t.st);
      SkipElements(n.st, n.value, from)
    else if token != ARRAY_END then Err(IOError("Expecting ']'"))
    else NextToken(s)
  }

  /** `checkArrayEnd()`. */
  function CheckArrayEnd(s: ReaderState): (r: Result<()>)
    requires s.Valid()
    ensures r.Ok? <==> s.last == ARRAY_END
  {
    if s.last != ARRAY_END then
      if s.currentIndex >= s.length then Err(IOError("Unexpected end of JSON in collection"))
      else Err(IOError("Expecting ']'"))
    else Ok(())
  }

  // ---------------------------------------------------------------------
  // Strings

  const NOT_CLOSED := "JSON string was not closed with a double quote"

  /** `hexToInt`: the value of one hexadecimal digit of a `\u` escape. */
  function HexToInt(b: Byte): (r: Result<int>)
    ensures r.Ok? <==> IsDigit(b) || 'A' as int <= b <= 'F' as int || 'a' as int <= b <= 'f' as int
    ensures r.Ok? ==> 0 <= r.value < 16
    ensures r.Ok? && IsDigit(b) ==> r.value == b - '0' as int
    ensures r.Ok? && !IsDigit(b) ==> r.value >= 10
  {
    if '0' as int <= b <= '9' as int then Ok(b - 0x30)
    else if 'A' as int <= b <= 'F' as int then Ok(b - 0x37)
    else if 'a' as int <= b <= 'f' as int then Ok(b - 0x57)
    else Err(IOError("Could not parse unicode escape, expected a hexadecimal digit"))
  }

  /** `buffer[i]` with Java's bounds check. */
  function At(buf: seq<Byte>, i: int): (r: Result<Byte>)
    requires 0 <= i
    ensures r.Ok? <==> i < |buf|
    ensures r.Ok? ==> r.value == buf[i]
  {
    if i < |buf| then Ok(buf[i]) else Err(IndexOutOfBounds)
  }

  function HexAt(buf: seq<Byte>, i: int): (r: Result<int>)
    requires 0 <= i
    ensures r.Ok? ==> i < |buf| && 0 <= r.value < 16
  {
    var b :- At(buf, i);
    HexToInt(b)
  }

  /** Bytes copied into a `char[]` one by one, as `(char) b`. */
  function Chars(bs: seq<Byte>): (r: seq<Char>)
    ensures |r| == |bs|
    ensures forall i | 0 <= i < |bs| :: r[i] == (bs[i] as int) % 0x1_0000
  {
    seq(|bs|, i requires 0 <= i < |bs| => ((bs[i] as int) % 0x1_0000) as Char)
  }

  /** Writes into the temporary `char[]` of capacity `cap`: they fail with an
      index error once the buffer is full. */
  function PutAll(acc: seq<Char>, cap: int, cs: seq<Char>): (r: Result<seq<Char>>)
    ensures r.Ok? <==> |acc| + |cs| <= cap
    ensures r.Ok? ==> r.value == acc + cs
  {
    if |acc| + |cs| <= cap then Ok(acc + cs) else Err(IndexOutOfBounds)
  }

  /** The character a one-letter escape stands for: `\b \t \n \f \r` are
      the control characters 8, 9, 10, 12 and 13; `\" \/ \\` stand for
      themselves. */
  function SimpleEscape(c: Byte): (r: Option<Char>)
    ensures r.Some? <==> c in {'b' as int, 't' as int, 'n' as int, 'f' as int, 'r' as int, QUOTE, '/' as int, BACKSLASH}
  {
    if c == 'b' as int then Some(8)
    else if c == 't' as int then Some(9)
    else if c == 'n' as int then Some(10)
    else if c == 'f' as int then Some(12)
    else if c == 'r' as int then Some(13)
    else if c == QUOTE || c == '/' as int || c == BACKSLASH then Some(c)
    else None
  }

  /** The four hexadecimal digits of a `\u` escape, from the cursor on. */
  function UnicodeEscape(s: ReaderState): (r: Result<Out<Char>>)
    requires s.Valid()
    ensures r.Ok? ==> Moves(s, r.value.st) && r.value.st.currentIndex == s.currentIndex + 4
    ensures r.Ok? ==> r.value.st.last == s.last
  {
    var h1 :- HexAt(s.buf, s.currentIndex);
    var h2 :- HexAt(s.buf, s.currentIndex + 1);
    var h3 :- HexAt(s.buf, s.currentIndex + 2);
    var h4 :- HexAt(s.buf, s.currentIndex + 3);
    Ok(Out(h1 * 0x1000 + h2 * 0x100 + h3 * 0x10 + h4, s.(currentIndex := s.currentIndex + 4)))
  }

  /** The character an escape sequence stands for; `s` is just after the
      backslash. The bytes of the escape are read without the `length` check. */
  function Escape(s: ReaderState): (r: Result<Out<Char>>)
    requires s.Valid()
    ensures r.Ok? ==> Moves(s, r.value.st) && r.value.st.currentIndex > s.currentIndex
    ensures r.Ok? ==> r.value.st.last == s.last
  {
    var c :- At(s.buf, s.currentIndex);
    EscapeChar(s.(currentIndex := s.currentIndex + 1), c)
  }

  /** The character the escape letter `c` stands for; `s` is just after
      the letter. */
  function EscapeChar(s: ReaderState, c: Byte): (r: Result<Out<Char>>)
    requires s.Valid()
    ensures r.Ok? ==> Moves(s, r.value.st) && r.value.st.last == s.last
    ensures SimpleEscape(c).Some? ==> r == Ok(Out(SimpleEscape(c).value, s))
    ensures SimpleEscape(c).None? && c != 'u' as int ==> r.Err?
  {
    match SimpleEscape(c)
    case Some(e) => Ok(Out(e, s))
    case None =>
      if c == 'u' as int then UnicodeEscape(s)
      else Err(IOError("Invalid escape combination detected"))
  }

  /** The code unit of a 2-byte UTF-8 sequence, from its lead byte (as an
      unsigned value) and its continuation byte. */
  function TwoByteCodePoint(ub: int, u2: Byte): (c: Char)
    requires 0xC0 <= ub < 0xE0
  {
    (ub % 32) * 0x40 + u2 % 64
  }

  /** The code unit of a 3-byte UTF-8 sequence. */
  function ThreeByteCodePoint(ub: int, u2: Byte, u3: Byte): (c: Char)
    requires 0xE0 <= ub < 0xF0
  {
    (ub % 16) * 0x1000 + (u2 % 64) * 0x40 + u3 % 64
  }

  /** The code point of a 4-byte UTF-8 sequence, from its lead byte (as an
      unsigned value) and its three continuation bytes. */
  function FourByteCodePoint(ub: int, u2: Byte, u3: Byte, u4: Byte): int {
    (ub % 8) * 0x40000 + (u2 % 64) * 0x1000 + (u3 % 64) * 0x40 + u4 % 64
  }

  /** The UTF-16 code units of a supplementary code point. */
  function SurrogatePair(cp: int): (r: seq<Char>)
    requires 0x10000 <= cp < 0x110000
    ensures |r| == 2
    ensures 0xD800 <= r[0] < 0xDC00 && 0xDC00 <= r[1] < 0xE000
  {
    var sup := cp - 0x10000;
    [sup / 0x400 + 0xD800, sup % 0x400 + 0xDC00]
  }

  /** What the 4-byte branch of `parseString` stores for a supplementary code
      point. As written (`ExtraUnit`) it stores the surrogate pair and then
      falls through to the store every branch shares, adding `(char) cp`,
      the low 16 bits of the code point; `PairOnly` is the evidently
      intended decoding, the pair alone. */
  datatype Supplementary = ExtraUnit | PairOnly

  /** The code units the 4-byte branch stores for a code point from U+10000
      to U+10FFFF. */
  function SupplementaryUnits(cp: int, sup: Supplementary): (r: seq<Char>)
    requires 0x10000 <= cp < 0x110000
    ensures |r| == (if sup == ExtraUnit then 3 else 2) && r[..2] == SurrogatePair(cp)
  {
    if sup == ExtraUnit then SurrogatePair(cp) + [cp % 0x1_0000] else SurrogatePair(cp)
  }

  /** Decode a multi-byte UTF-8 sequence whose lead byte `lead` (negative as a
      Java byte) has just been read; continuation bytes are read without the
      `length` check and are not validated. A supplementary code point becomes
      the units `SupplementaryUnits` gives. */
  function Utf8(s: ReaderState, lead: Byte, sup: Supplementary): (r: Result<Out<seq<Char>>>)
    requires s.Valid() && lead < 0
    ensures r.Ok? ==> Moves(s, r.value.st) && r.value.st.currentIndex > s.currentIndex
    ensures r.Ok? ==> r.value.st.last == s.last && 1 <= |r.value.value| <= 3
  {
    var ub := lead + 256;
    var u2 :- At(s.buf, s.currentIndex);
    if 0xC0 <= ub < 0xE0 then
      Ok(Out([TwoByteCodePoint(ub, u2)], s.(currentIndex := s.currentIndex + 1)))
    else
      var u3 :- At(s.buf, s.currentIndex + 1);
      if 0xE0 <= ub < 0xF0 then
        Ok(Out([ThreeByteCodePoint(ub, u2, u3)], s.(currentIndex := s.currentIndex + 2)))
      else
        var u4 :- At(s.buf, s.currentIndex + 2);
        if 0xF0 <= ub < 0xF8 then
          var cp := FourByteCodePoint(ub, u2, u3, u4);
          var t := s.(currentIndex := s.currentIndex + 3);
          if cp >= 0x110000 then Err(IOError("Invalid unicode character detected"))
          else if cp >= 0x10000 then Ok(Out(SupplementaryUnits(cp, sup), t))
          else Ok(Out([cp], t))
        else Err(IOError("Invalid unicode character detected"))
  }

  /** The discrepancy: U+1F600, encoded F0 9F 98 80, decodes as written to
      three code units, the pair D83D DE00 followed by a stray F600. */
  lemma FourByteAsWrittenAddsUnit()
    ensures FourByteCodePoint(0xF0, -0x61, -0x68, -0x80) == 0x1F600
    ensures SupplementaryUnits(0x1F600, ExtraUnit) == [0xD83D, 0xDE00, 0xF600]
    ensures SupplementaryUnits(0x1F600, PairOnly) == [0xD83D, 0xDE00]
  {
  }

  /** `chars.length * 2` when the slow path decides the buffer may be short. */
  function Grow(s: ReaderState, when: bool): (t: ReaderState)
    requires s.Valid()
    ensures t.Valid() && t.charsLength >= s.charsLength
  {
    if when then s.(charsLength := 2 * s.charsLength) else s
  }

  /** One character of the slow path of `parseString`, once its first byte
      `bc` (not a quote) has been read: make room in the `chars` buffer,
      decode, and store the code units after `acc`. */
  function DecodeUnit(s: ReaderState, bc: Byte, acc: seq<Char>, sup: Supplementary): (r: Result<Out<seq<Char>>>)
    requires s.Valid()
    ensures r.Ok? ==> Moves(s, r.value.st)
  {
    if bc == BACKSLASH then EscapeUnit(s, acc)
    else if bc < 0 then Utf8Unit(s, bc, acc, sup)
    else PlainUnit(s, bc, acc)
  }

  /** An escape sequence; the buffer grows when fewer than seven slots are left. */
  function EscapeUnit(s: ReaderState, acc: seq<Char>): (r: Result<Out<seq<Char>>>)
    requires s.Valid()
    ensures r.Ok? ==> Moves(s, r.value.st)
  {
    var t := Grow(s, |acc| >= s.charsLength - 6);
    var e :- Escape(t);
    var acc' :- PutAll(acc, t.charsLength, [e.value]);
    Ok(Out(acc', e.st))
  }

  /** A multi-byte UTF-8 sequence; the buffer grows when fewer than five
      slots are left. */
  function Utf8Unit(s: ReaderState, bc: Byte, acc: seq<Char>, sup: Supplementary): (r: Result<Out<seq<Char>>>)
    requires s.Valid() && bc < 0
    ensures r.Ok? ==> Moves(s, r.value.st)
  {
    var t := Grow(s, |acc| >= s.charsLength - 4);
    var u :- Utf8(t, bc, sup);
    var acc' :- PutAll(acc, t.charsLength, u.value);
    Ok(Out(acc', u.st))
  }

  /** A byte copied as it is; the buffer grows when it is full. */
  function PlainUnit(s: ReaderState, bc: Byte, acc: seq<Char>): (r: Result<Out<seq<Char>>>)
    requires s.Valid() && bc >= 0
    ensures r.Ok? ==> Moves(s, r.value.st)
  {
    var t := Grow(s, |acc| >= s.charsLength);
    var acc' :- PutAll(acc, t.charsLength, [bc]);
    Ok(Out(acc', t))
  }

  /** The slow path of `parseString`: decode escapes and UTF-8 byte by byte
      until the closing quote; `acc` holds the code units decoded so far. */
  function SlowPhase(s: ReaderState, acc: seq<Char>, sup: Supplementary): (r: Result<Out<seq<Char>>>)
    requires s.Valid()
    ensures r.Ok? ==> Moves(s, r.value.st) && r.value.st.last == QUOTE
    decreases |s.buf| - s.currentIndex
  {
    if s.currentIndex == s.length then Err(IOError(NOT_CLOSED))
    else
      var o :- Read(s);
      if o.value == QUOTE then Ok(Out(acc, o.st))
      else
        var u :- DecodeUnit(o.st, o.value, acc, sup);
        SlowPhase(u.st, u.value, sup)
  }

  /** Bytes the fast path copies as they are. */
  predicate IsPlain(b: Byte) { 0 <= b && b != QUOTE && b != BACKSLASH }

  /** Where the fast path of `parseString` stops: with its result, or by
      handing over to the slow path in state `st` with the code units `units`
      copied so far. */
  datatype Stop = Finished(out: Result<Out<seq<Char>>>) | Handover(st: ReaderState, units: seq<Char>)

  /** The fast path stops after `i` bytes: the `chars` buffer is full, the
      byte array ends, or the next byte is not plain. */
  predicate FastStops(s: ReaderState, i: int)
    requires s.Valid() && 0 <= i && s.currentIndex + i <= |s.buf|
  {
    i == s.charsLength || s.currentIndex + i == |s.buf| || !IsPlain(s.buf[s.currentIndex + i])
  }

  /** How the fast path ends once it stops after copying `i` plain bytes.
      Its reads are bounded by the buffer only, not by `length`; on a
      backslash or a byte with the high bit it hands over to the slow path,
      which re-reads that byte, and when the `chars` buffer is full or the
      array ends the slow path re-reads the last byte copied. */
  function FastStop(s: ReaderState, i: int): (r: Stop)
    requires s.Valid() && 0 <= i <= s.charsLength && s.currentIndex + i <= |s.buf|
    requires FastStops(s, i)
    ensures r.Handover? ==> Moves(s, r.st) && r.st.last == s.last
    ensures r.Finished? && r.out.Ok? ==> Moves(s, r.out.value.st)
  {
    var start := s.currentIndex;
    var ci := start + i;
    if i == s.charsLength then
      if ci >= s.length then Finished(Err(IOError(NOT_CLOSED)))
      else Handover(s.(currentIndex := ci - 1), Chars(s.buf[start..ci - 1]))
    else if ci == |s.buf| then
      if s.length != |s.buf| then Finished(Err(IOError(NOT_CLOSED)))
      else if i == 0 then Finished(Err(IndexOutOfBounds))
      else Handover(s.(currentIndex := ci - 1, charsLength := 2 * s.charsLength), Chars(s.buf[start..ci - 1]))
    else if s.buf[ci] == QUOTE then Finished(Ok(Out(Chars(s.buf[start..ci]), s.(currentIndex := ci + 1))))
    else if ci + 1 >= s.length then Finished(Err(IOError(NOT_CLOSED)))
    else Handover(s.(currentIndex := ci), Chars(s.buf[start..ci]))
  }

  /** The fast path of `parseString`: copy plain bytes while the `chars`
      buffer has room, and stop. */
  function FastPhase(s: ReaderState, i: int): (r: Stop)
    requires s.Valid() && 0 <= i <= s.charsLength && s.currentIndex + i <= |s.buf|
    ensures r.Handover? ==> Moves(s, r.st) && r.st.last == s.last
    ensures r.Finished? && r.out.Ok? ==> Moves(s, r.out.value.st)
    decreases s.charsLength - i
  {
    if FastStops(s, i) then FastStop(s, i) else FastPhase(s, i + 1)
  }

  /** Where the fast path stopped: its result, or the slow path from there. */
  function Resume(stop: Stop, sup: Supplementary): (r: Result<Out<seq<Char>>>)
    requires stop.Handover? ==> stop.st.Valid()
  {
    match stop
    case Finished(o) => o
    case Handover(t, units) => SlowPhase(t, units, sup)
  }

  /** Plain bytes before `i` are copied without stopping: the fast path
      from the cursor continues as the fast path from `i`. */
  lemma {:induction false} FastPhasePlain(s: ReaderState, i: int)
    requires s.Valid() && 0 <= i <= s.charsLength && s.currentIndex + i <= |s.buf|
    requires forall k | s.currentIndex <= k < s.currentIndex + i :: IsPlain(s.buf[k])
    ensures FastPhase(s, 0) == FastPhase(s, i)
    decreases i
  {
    if 0 < i {
      FastPhasePlain(s, i - 1);
      assert !FastStops(s, i - 1);
    }
  }

  /** `parseString()`: the code units of the string whose opening quote is
      `last`, decoding supplementary code points as `sup` says. When the
      cursor is at the very end of a full buffer the source continues from
      the byte before it with the length -1, and every path from there ends
      in an index error or in that -1, on which callers fail with an index
      error; the model reports the index error at once. */
  function ParseStringWith(s: ReaderState, sup: Supplementary): (r: Result<Out<seq<Char>>>)
    requires s.Valid()
    ensures r.Ok? ==> Moves(s, r.value.st)
  {
    if s.last != QUOTE then Err(IOError("JSON string must start with a double quote"))
    else Resume(FastPhase(s, 0), sup)
  }

  /** `parseString()` as written. */
  function ParseString(s: ReaderState): (r: Result<Out<seq<Char>>>)
    requires s.Valid()
    ensures r.Ok? ==> Moves(s, r.value.st)
  {
    ParseStringWith(s, ExtraUnit)
  }
}

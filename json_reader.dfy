/** The reader object: a cursor over a byte buffer whose methods update the
    cursor fields in place. Each method is proved to do exactly what the
    matching step function of `ReaderSpec` says, so the properties proved
    there carry over to the object. */
module JsonReader {
  import opened Java
  import Fnv
  import ReaderSpec
  import Collections

  class JsonReader {
    const buffer: array<Byte>
    var length: int
    var currentIndex: int
    var last: Byte
    var tokenStart: int
    var nameEnd: int
    var lastHash: bv32
    /** The capacity of the `chars` buffer that string decoding fills. */
    var charsLength: int

    function State(): ReaderSpec.ReaderState
      reads this, buffer
    {
      ReaderSpec.ReaderState(buffer[..], length, currentIndex, last, tokenStart, nameEnd, lastHash, charsLength)
    }

    ghost predicate Valid()
      reads this, buffer
    {
      State().Valid()
    }

    /** The method's result `r` and the object's state are what the step
        function produced; after an error only the error is specified. */
    ghost predicate Agrees<T>(r: Result<T>, spec: Result<ReaderSpec.Out<T>>)
      reads this, buffer
    {
      match spec
      case Ok(o) => r == Ok(o.value) && State() == o.st
      case Err(e) => r == Err(e)
    }

    /** A reader over `buffer[..length]`: when the input is shorter than the
        buffer, a `'\0'` sentinel is written just after it. */
    constructor (buffer: array<Byte>, length: int, charsLength: int)
      requires 0 <= length <= buffer.Length && 1 <= charsLength
      modifies buffer
      ensures this.buffer == buffer && Valid()
      ensures length < buffer.Length ==> buffer[..] == old(buffer[..])[length := 0]
      ensures length == buffer.Length ==> buffer[..] == old(buffer[..])
      ensures State() == ReaderSpec.ReaderState(buffer[..], length, 0, ' ' as int, 0, 0, 0, charsLength)
    {
      this.buffer := buffer;
      this.length := length;
      this.charsLength := charsLength;
      currentIndex := 0;
      last := ' ' as int;
      tokenStart := 0;
      nameEnd := 0;
      lastHash := 0;
      new;
      if length < buffer.Length {
        buffer[length] := 0;
      }
    }

    /** `read()`. */
    method Read() returns (r: Result<Byte>)
      requires Valid()
      modifies this
      ensures Valid() && Agrees(r, ReaderSpec.Read(old(State())))
    {
      if currentIndex >= length {
        return Err(IOError("Unexpected end of JSON input"));
      }
      last := buffer[currentIndex];
      currentIndex := currentIndex + 1;
      return Ok(last);
    }

    /** `wasWhiteSpace()`. */
    method WasWhiteSpace() returns (w: bool)
      requires Valid()
      modifies this
      ensures Valid() && ReaderSpec.WasWhiteSpace(old(State())) == ReaderSpec.Out(w, State())
    {
      if last in {9, 10, 11, 12, 13, 32, -96} {
        return true;
      } else if last == -31 {
        if currentIndex + 1 < length && buffer[currentIndex] == -102 && buffer[currentIndex + 1] == -128 {
          currentIndex := currentIndex + 2;
          last := ' ' as int;
          return true;
        }
        return false;
      } else if last == -30 {
        if currentIndex + 1 < length {
          var b1 := buffer[currentIndex];
          var b2 := buffer[currentIndex + 1];
          if b1 == -127 && b2 == -97 {
            currentIndex := currentIndex + 2;
            last := ' ' as int;
            return true;
          }
          if b1 != -128 {
            return false;
          }
          if ReaderSpec.IsE280Space(b2) {
            currentIndex := currentIndex + 2;
            last := ' ' as int;
            return true;
          }
          return false;
        }
        return false;
      } else if last == -29 {
        if currentIndex + 1 < length && buffer[currentIndex] == -128 && buffer[currentIndex + 1] == -128 {
          currentIndex := currentIndex + 2;
          last := ' ' as int;
          return true;
        }
        return false;
      }
      return false;
    }

    /** `getNextToken()`. */
    method GetNextToken() returns (r: Result<Byte>)
      requires Valid()
      modifies this
      ensures Valid() && Agrees(r, ReaderSpec.NextToken(old(State())))
    {
      var b :- Read();
      if ReaderSpec.IsWhitespace(last) {
        while true
          invariant Valid() && ReaderSpec.NextToken(old(State())) == ReaderSpec.SkipWhitespace(State())
          decreases buffer.Length - currentIndex
        {
          var w := WasWhiteSpace();
          if !w {
            break;
          }
          var c :- Read();
        }
      }
      return Ok(last);
    }

    /** `scanNumber()`. */
    method ScanNumber() returns (start: int)
      requires Valid()
      modifies this
      ensures Valid() && ReaderSpec.ScanNumber(old(State())) == ReaderSpec.Out(start, State())
    {
      tokenStart := currentIndex - 1;
      var i := 1;
      var ci := currentIndex;
      var bb := last;
      while ci < length
        invariant currentIndex <= ci && (ci <= length || ci == currentIndex)
        invariant i == ci - currentIndex + 1
        invariant ReaderSpec.NumberEnd(buffer[..], length, ci) == ReaderSpec.NumberEnd(buffer[..], length, currentIndex)
        invariant bb == if ci == currentIndex then last else buffer[ci - 1]
      {
        bb := buffer[ci];
        ci := ci + 1;
        if ReaderSpec.IsNumberEnd(bb) {
          break;
        }
        i := i + 1;
      }
      currentIndex := currentIndex + i - 1;
      last := bb;
      return tokenStart;
    }

    /** `allWhitespace(start, end)`. */
    method AllWhitespace(start: int, end: int) returns (r: bool)
      requires 0 <= start && end <= buffer.Length
      ensures r == ReaderSpec.AllWhitespace(buffer[..], start, end)
    {
      var i := start;
      while i < end
        invariant start <= i && (i <= end || i == start)
        invariant forall k | start <= k < i :: ReaderSpec.IsWhitespace(buffer[k])
      {
        if !ReaderSpec.IsWhitespace(buffer[i]) {
          return false;
        }
        i := i + 1;
      }
      return true;
    }

    /** The hashing loop of `calcHash()`: the FNV-1a hash of the bytes from
        `start` up to the first quote `q`, or to the end of the buffer. */
    method HashName(start: int) returns (q: int, hash: bv32)
      requires 0 <= start <= buffer.Length
      ensures start <= q <= buffer.Length
      ensures forall k | start <= k < q :: buffer[k] != QUOTE
      ensures q < buffer.Length ==> buffer[q] == QUOTE
      ensures hash == Fnv.Hash(buffer[start..q])
    {
      q := start;
      hash := Fnv.OFFSET_BASIS;
      while q < buffer.Length && buffer[q] != QUOTE
        invariant start <= q <= buffer.Length
        invariant forall k | start <= k < q :: buffer[k] != QUOTE
        invariant hash == Fnv.Hash(buffer[start..q])
      {
        assert buffer[start..q + 1] == buffer[start..q] + [buffer[q]];
        Fnv.HashSnoc(buffer[start..q], buffer[q]);
        hash := Fnv.Step(hash, buffer[q]);
        q := q + 1;
      }
    }

    /** `calcHash()`. */
    method CalcHash() returns (r: Result<bv32>)
      requires Valid()
      modifies this
      ensures Valid() && Agrees(r, ReaderSpec.CalcHash(old(State())))
    {
      if last != QUOTE {
        return Err(IOError("Expecting '\"'"));
      }
      var start := currentIndex;
      var q, hash := HashName(start);
      assert buffer[..][start..q] == buffer[start..q];
      ReaderSpec.CalcHashAt(State(), q);
      var ci := if q < buffer.Length then q + 1 else q;
      tokenStart := start;
      nameEnd := ci;
      currentIndex := ci;
      return Ok(hash);
    }

    /** The weak hash of `buffer[start..end]`. */
    method WeakHash(start: int, end: int) returns (h: int)
      requires 0 <= start <= buffer.Length && end <= buffer.Length
      ensures h == Fnv.WeakHash(buffer[start..if end < start then start else end])
    {
      h := 0;
      var i := start;
      while i < end
        invariant start <= i && (i <= end || i == start)
        invariant h == Fnv.WeakHash(buffer[start..i])
      {
        assert buffer[start..i + 1] == buffer[start..i] + [buffer[i]];
        Fnv.WeakHashSnoc(buffer[start..i], buffer[i]);
        h := Int32(h + buffer[i]);
        i := i + 1;
      }
    }

    /** The `:` after a name. */
    method ExpectColon() returns (r: Result<()>)
      requires Valid()
      modifies this
      ensures Valid()
      ensures match ReaderSpec.ExpectColon(old(State()))
        case Ok(t) => r == Ok(()) && State() == t
        case Err(e) => r == Err(e)
    {
      var c :- Read();
      if c != COLON {
        var w := WasWhiteSpace();
        if !w {
          return Err(IOError("Expecting ':'"));
        }
        var t :- GetNextToken();
        if t != COLON {
          return Err(IOError("Expecting ':'"));
        }
      }
      return Ok(());
    }

    /** `fillName()`. */
    method FillName() returns (r: Result<bv32>)
      requires Valid()
      modifies this
      ensures Valid() && Agrees(r, ReaderSpec.FillName(old(State())))
    {
      var h :- CalcHash();
      var c :- ExpectColon();
      return Ok(h);
    }

    /** `fillNameWeakHash()`. */
    method FillNameWeakHash() returns (r: Result<int>)
      requires Valid()
      modifies this
      ensures Valid() && Agrees(r, ReaderSpec.FillNameWeakHash(old(State())))
    {
      var h :- CalcHash();
      ghost var named := State();
      var weak := WeakHash(tokenStart, nameEnd - 1);
      assert weak == Fnv.WeakHash(ReaderSpec.LastName(named));
      lastHash := h;
      assert State() == named.(lastHash := h);
      var c :- ExpectColon();
      return Ok(weak);
    }

    /** `wasLastName(name)`. */
    method WasLastName(name: seq<Char>) returns (r: Result<bool>)
      requires Valid()
      ensures r == ReaderSpec.WasLastName(State(), name)
    {
      if |name| != nameEnd - tokenStart - 1 {
        return Ok(false);
      }
      var i := 0;
      while i < |name|
        invariant 0 <= i <= |name|
        invariant 0 < i ==> 0 <= tokenStart
        invariant forall k | 0 <= k < i :: name[k] == buffer[tokenStart + k]
      {
        if tokenStart + i < 0 {
          return Err(IndexOutOfBounds);
        }
        if name[i] != buffer[tokenStart + i] {
          return Ok(false);
        }
        i := i + 1;
      }
      return Ok(true);
    }

    /** `wasNull()`. */
    method WasNull() returns (r: Result<bool>)
      requires Valid()
      modifies this
      ensures Valid() && Agrees(r, ReaderSpec.WasNull(old(State())))
    {
      if last == 'n' as int {
        if currentIndex + 2 < length && buffer[currentIndex] == 'u' as int
          && buffer[currentIndex + 1] == 'l' as int && buffer[currentIndex + 2] == 'l' as int
        {
          assert buffer[currentIndex..currentIndex + 3] == Ascii("ull");
          currentIndex := currentIndex + 3;
          last := 'l' as int;
          return Ok(true);
        }
        return Err(IOError("Invalid null value found"));
      }
      return Ok(false);
    }

    /** `wasTrue()`. */
    method WasTrue() returns (r: Result<bool>)
      requires Valid()
      modifies this
      ensures Valid() && Agrees(r, ReaderSpec.WasTrue(old(State())))
    {
      if last == 't' as int {
        if currentIndex + 2 < length && buffer[currentIndex] == 'r' as int
          && buffer[currentIndex + 1] == 'u' as int && buffer[currentIndex + 2] == 'e' as int
        {
          assert buffer[currentIndex..currentIndex + 3] == Ascii("rue");
          currentIndex := currentIndex + 3;
          last := 'e' as int;
          return Ok(true);
        }
        return Err(IOError("Invalid boolean value found"));
      }
      return Ok(false);
    }

    /** `wasFalse()`. */
    method WasFalse() returns (r: Result<bool>)
      requires Valid()
      modifies this
      ensures Valid() && Agrees(r, ReaderSpec.WasFalse(old(State())))
    {
      if last == 'f' as int {
        if currentIndex + 3 < length && buffer[currentIndex] == 'a' as int
          && buffer[currentIndex + 1] == 'l' as int && buffer[currentIndex + 2] == 's' as int
          && buffer[currentIndex + 3] == 'e' as int
        {
          assert buffer[currentIndex..currentIndex + 4] == Ascii("alse");
          currentIndex := currentIndex + 4;
          last := 'e' as int;
          return Ok(true);
        }
        return Err(IOError("Invalid boolean value found"));
      }
      return Ok(false);
    }

    /** `checkArrayEnd()`. */
    method CheckArrayEnd() returns (r: Result<()>)
      requires Valid()
      ensures r == ReaderSpec.CheckArrayEnd(State())
    {
      if last != ARRAY_END {
        if currentIndex >= length {
          return Err(IOError("Unexpected end of JSON in collection"));
        }
        return Err(IOError("Expecting ']'"));
      }
      return Ok(());
    }

    /** `findNonWhitespace(end)`. */
    method FindNonWhitespace(end: int) returns (r: int)
      requires end <= buffer.Length
      ensures r == ReaderSpec.FindNonWhitespace(buffer[..], end)
    {
      var i := end - 1;
      while i > 0
        invariant i < end
        invariant ReaderSpec.FindNonWhitespace(buffer[..], end) == ReaderSpec.FindNonWhitespace(buffer[..], i + 1)
        decreases i
      {
        if !ReaderSpec.IsWhitespace(buffer[i]) {
          return i + 1;
        }
        i := i - 1;
      }
      return 0;
    }

    /** `prepareBuffer(start)`: only the growth of the `chars` capacity is
        modelled. */
    method PrepareBuffer(start: int)
      requires Valid()
      modifies this
      ensures Valid() && State() == ReaderSpec.PrepareBuffer(old(State()), start)
    {
      var remaining := length - start;
      while charsLength < remaining
        invariant Valid() && remaining == length - start
        invariant ReaderSpec.PrepareBuffer(old(State()), start) == ReaderSpec.PrepareBuffer(State(), start)
        decreases remaining - charsLength
      {
        charsLength := charsLength * 2;
      }
    }

    /** `readSimpleQuote()` with a `tmp` buffer of `tmpLength` characters. */
    method ReadSimpleQuote(tmpLength: int) returns (r: Result<()>)
      requires Valid()
      modifies this
      ensures Valid()
      ensures match ReaderSpec.ReadSimpleQuote(old(State()), tmpLength)
        case Ok(t) => r == Ok(()) && State() == t
        case Err(e) => r == Err(e)
    {
      if last != QUOTE {
        return Err(IOError("Expecting '\"'"));
      }
      tokenStart := currentIndex;
      var ci := currentIndex;
      var i := 0;
      while i < tmpLength
        invariant currentIndex <= ci <= buffer.Length
        invariant ReaderSpec.QuoteScan(buffer[..], currentIndex, 0, tmpLength) == ReaderSpec.QuoteScan(buffer[..], ci, i, tmpLength)
        decreases tmpLength - i
      {
        if ci >= buffer.Length {
          return Err(IOError(ReaderSpec.NOT_CLOSED));
        }
        var bb := buffer[ci];
        ci := ci + 1;
        if bb == QUOTE {
          break;
        }
        i := i + 1;
      }
      if ci > length {
        return Err(IOError(ReaderSpec.NOT_CLOSED));
      }
      currentIndex := ci;
      return Ok(());
    }

    /** `buffer[i]`, failing with an index error outside the buffer. */
    method At(i: int) returns (r: Result<Byte>)
      requires 0 <= i
      ensures r == ReaderSpec.At(buffer[..], i)
    {
      if i >= buffer.Length {
        return Err(IndexOutOfBounds);
      }
      return Ok(buffer[i]);
    }

    /** `hexToInt(buffer[i])`. */
    method HexAt(i: int) returns (r: Result<int>)
      requires 0 <= i
      ensures r == ReaderSpec.HexAt(buffer[..], i)
    {
      var b :- At(i);
      r := ReaderSpec.HexToInt(b);
    }

    /** The four hexadecimal digits of a `\u` escape. */
    method UnicodeEscape() returns (r: Result<Char>)
      requires Valid()
      modifies this
      ensures Valid() && Agrees(r, ReaderSpec.UnicodeEscape(old(State())))
    {
      var h1 :- HexAt(currentIndex);
      var h2 :- HexAt(currentIndex + 1);
      var h3 :- HexAt(currentIndex + 2);
      var h4 :- HexAt(currentIndex + 3);
      currentIndex := currentIndex + 4;
      return Ok(h1 * 0x1000 + h2 * 0x100 + h3 * 0x10 + h4);
    }

    /** The escape sequence after a backslash in `parseString()`. */
    method Escape() returns (r: Result<Char>)
      requires Valid()
      modifies this
      ensures Valid() && Agrees(r, ReaderSpec.Escape(old(State())))
    {
      if currentIndex >= buffer.Length {
        return Err(IndexOutOfBounds);
      }
      var c := buffer[currentIndex];
      currentIndex := currentIndex + 1;
      assert State() == old(State()).(currentIndex := old(currentIndex) + 1);
      r := EscapeChar(c);
    }

    /** The character the escape letter `c` stands for. */
    method EscapeChar(c: Byte) returns (r: Result<Char>)
      requires Valid()
      modifies this
      ensures Valid() && Agrees(r, ReaderSpec.EscapeChar(old(State()), c))
    {
      match ReaderSpec.SimpleEscape(c)
      case Some(e) =>
        return Ok(e);
      case None =>
        if c == 'u' as int {
          r := UnicodeEscape();
        } else {
          r := Err(IOError("Invalid escape combination detected"));
        }
    }

    /** A multi-byte UTF-8 sequence in `parseString()`, after its lead byte.
        A supplementary code point is stored as its surrogate pair followed,
        as written, by `(char) bc`. */
    method Utf8(lead: Byte) returns (r: Result<seq<Char>>)
      requires Valid() && lead < 0
      modifies this
      ensures Valid() && Agrees(r, ReaderSpec.Utf8(old(State()), lead, ReaderSpec.ExtraUnit))
    {
      var ub := lead + 256;
      var u2 :- At(currentIndex);
      if 0xC0 <= ub < 0xE0 {
        currentIndex := currentIndex + 1;
        return Ok([ReaderSpec.TwoByteCodePoint(ub, u2)]);
      }
      var u3 :- At(currentIndex + 1);
      if 0xE0 <= ub < 0xF0 {
        currentIndex := currentIndex + 2;
        return Ok([ReaderSpec.ThreeByteCodePoint(ub, u2, u3)]);
      }
      var u4 :- At(currentIndex + 2);
      if !(0xF0 <= ub < 0xF8) {
        return Err(IOError("Invalid unicode character detected"));
      }
      var cp := ReaderSpec.FourByteCodePoint(ub, u2, u3, u4);
      currentIndex := currentIndex + 3;
      if cp >= 0x110000 {
        return Err(IOError("Invalid unicode character detected"));
      }
      if cp >= 0x10000 {
        return Ok(ReaderSpec.SurrogatePair(cp) + [cp % 0x1_0000]);
      }
      return Ok([cp]);
    }

    /** `parseString()`: the decoded code units of the string whose opening
        quote is `last`. */
    method ParseString() returns (r: Result<seq<Char>>)
      requires Valid()
      modifies this
      ensures Valid() && Agrees(r, ReaderSpec.ParseString(old(State())))
    {
      if last != QUOTE {
        return Err(IOError("JSON string must start with a double quote"));
      }
      var i, acc := CopyPlain();
      ReaderSpec.FastPhasePlain(State(), i);
      r := FinishFastPath(i, acc);
    }

    /** The fast path of `parseString()`: copy plain bytes from the cursor on
        while the chars buffer has room. Returns how many were copied and
        their code units. */
    method CopyPlain() returns (i: int, acc: seq<Char>)
      requires Valid()
      ensures 0 <= i <= charsLength && currentIndex + i <= buffer.Length
      ensures forall k | currentIndex <= k < currentIndex + i :: ReaderSpec.IsPlain(buffer[k])
      ensures ReaderSpec.FastStops(State(), i)
      ensures acc == ReaderSpec.Chars(buffer[currentIndex..currentIndex + i])
    {
      var start := currentIndex;
      acc := [];
      i := 0;
      while i < charsLength && start + i < buffer.Length && ReaderSpec.IsPlain(buffer[start + i])
        invariant 0 <= i <= charsLength && start + i <= buffer.Length
        invariant forall k | start <= k < start + i :: ReaderSpec.IsPlain(buffer[k])
        invariant acc == ReaderSpec.Chars(buffer[start..start + i])
      {
        assert ReaderSpec.Chars(buffer[start..start + i + 1]) == acc + [buffer[start + i] % 0x1_0000];
        acc := acc + [buffer[start + i] % 0x1_0000];
        i := i + 1;
      }
    }

    /** Where the fast path of `parseString()` stopped after copying `i`
        plain bytes into `acc`: at the closing quote, or handing over to the
        slow path. */
    method FinishFastPath(i: int, acc: seq<Char>) returns (r: Result<seq<Char>>)
      requires Valid() && 0 <= i <= charsLength && currentIndex + i <= buffer.Length
      requires acc == ReaderSpec.Chars(buffer[currentIndex..currentIndex + i])
      requires ReaderSpec.FastStops(State(), i)
      modifies this
      ensures Valid() && Agrees(r, ReaderSpec.Resume(ReaderSpec.FastPhase(old(State()), i), ReaderSpec.ExtraUnit))
    {
      var slow, units;
      r, slow, units := StopFastPath(i, acc);
      if slow {
        r := SlowPath(units);
      }
    }

    /** The end of the fast path: the result when the string ends there, or
        the state and code units the slow path starts from. */
    method StopFastPath(i: int, acc: seq<Char>) returns (r: Result<seq<Char>>, slow: bool, units: seq<Char>)
      requires Valid() && 0 <= i <= charsLength && currentIndex + i <= buffer.Length
      requires acc == ReaderSpec.Chars(buffer[currentIndex..currentIndex + i])
      requires ReaderSpec.FastStops(State(), i)
      modifies this
      ensures Valid()
      ensures match ReaderSpec.FastStop(old(State()), i)
        case Finished(o) => !slow && Agrees(r, o)
        case Handover(t, u) => slow && State() == t && units == u
    {
      var start := currentIndex;
      var ci := start + i;
      r, slow, units := Ok(acc), false, acc;
      if i == charsLength {
        if ci >= length {
          return Err(IOError(ReaderSpec.NOT_CLOSED)), false, acc;
        }
        assert acc[..i - 1] == ReaderSpec.Chars(buffer[start..ci - 1]);
        units := acc[..i - 1];
        currentIndex := ci - 1;
        slow := true;
      } else if ci == buffer.Length {
        if length != buffer.Length {
          return Err(IOError(ReaderSpec.NOT_CLOSED)), false, acc;
        }
        if i == 0 {
          return Err(IndexOutOfBounds), false, acc;
        }
        assert acc[..i - 1] == ReaderSpec.Chars(buffer[start..ci - 1]);
        units := acc[..i - 1];
        charsLength := 2 * charsLength;
        currentIndex := ci - 1;
        slow := true;
      } else if buffer[ci] == QUOTE {
        currentIndex := ci + 1;
      } else if ci + 1 >= length {
        r := Err(IOError(ReaderSpec.NOT_CLOSED));
      } else {
        currentIndex := ci;
        slow := true;
      }
    }

    /** The slow path of `parseString()`: decode escapes and UTF-8 until the
        closing quote, after the code units `acc`. */
    method SlowPath(acc: seq<Char>) returns (r: Result<seq<Char>>)
      requires Valid()
      modifies this
      ensures Valid() && Agrees(r, ReaderSpec.SlowPhase(old(State()), acc, ReaderSpec.ExtraUnit))
    {
      var units := acc;
      while true
        invariant Valid() && ReaderSpec.SlowPhase(old(State()), acc, ReaderSpec.ExtraUnit) == ReaderSpec.SlowPhase(State(), units, ReaderSpec.ExtraUnit)
        decreases buffer.Length - currentIndex
      {
        if currentIndex == length {
          return Err(IOError(ReaderSpec.NOT_CLOSED));
        }
        var bc :- Read();
        if bc == QUOTE {
          return Ok(units);
        }
        units :- DecodeUnit(bc, units);
      }
    }

    /** One character of the slow path of `parseString()`. */
    method DecodeUnit(bc: Byte, acc: seq<Char>) returns (r: Result<seq<Char>>)
      requires Valid()
      modifies this
      ensures Valid() && Agrees(r, ReaderSpec.DecodeUnit(old(State()), bc, acc, ReaderSpec.ExtraUnit))
    {
      if bc == BACKSLASH {
        r := EscapeUnit(acc);
      } else if bc < 0 {
        r := Utf8Unit(bc, acc);
      } else {
        r := PlainUnit(bc, acc);
      }
    }

    method EscapeUnit(acc: seq<Char>) returns (r: Result<seq<Char>>)
      requires Valid()
      modifies this
      ensures Valid() && Agrees(r, ReaderSpec.EscapeUnit(old(State()), acc))
    {
      if |acc| >= charsLength - 6 {
        charsLength := 2 * charsLength;
      }
      assert State() == ReaderSpec.Grow(old(State()), |acc| >= old(charsLength) - 6);
      var e :- Escape();
      r := ReaderSpec.PutAll(acc, charsLength, [e]);
    }

    method Utf8Unit(bc: Byte, acc: seq<Char>) returns (r: Result<seq<Char>>)
      requires Valid() && bc < 0
      modifies this
      ensures Valid() && Agrees(r, ReaderSpec.Utf8Unit(old(State()), bc, acc, ReaderSpec.ExtraUnit))
    {
      if |acc| >= charsLength - 4 {
        charsLength := 2 * charsLength;
      }
      assert State() == ReaderSpec.Grow(old(State()), |acc| >= old(charsLength) - 4);
      var u :- Utf8(bc);
      r := ReaderSpec.PutAll(acc, charsLength, u);
    }

    method PlainUnit(bc: Byte, acc: seq<Char>) returns (r: Result<seq<Char>>)
      requires Valid() && bc >= 0
      modifies this
      ensures Valid() && Agrees(r, ReaderSpec.PlainUnit(old(State()), bc, acc))
    {
      if |acc| >= charsLength {
        charsLength := 2 * charsLength;
      }
      assert State() == ReaderSpec.Grow(old(State()), |acc| >= old(charsLength));
      r := ReaderSpec.PutAll(acc, charsLength, [bc]);
    }

    /** `skipString()`. */
    method SkipString() returns (r: Result<Byte>)
      requires Valid()
      modifies this
      ensures Valid() && Agrees(r, ReaderSpec.SkipString(old(State())))
    {
      var c :- Read();
      var inEscape := false;
      while c != QUOTE || inEscape
        invariant Valid() && ReaderSpec.SkipString(old(State())) == ReaderSpec.SkipStringRest(State(), c, inEscape)
        decreases buffer.Length - currentIndex
      {
        inEscape := !inEscape && c == BACKSLASH;
        c :- Read();
      }
      r := GetNextToken();
    }

    /** `skip()`. */
    method Skip() returns (r: Result<Byte>)
      requires Valid()
      modifies this
      ensures Valid() && Agrees(r, ReaderSpec.Skip(old(State())))
      decreases buffer.Length - currentIndex, 3
    {
      if last == QUOTE {
        r := SkipString();
      } else if last == OBJECT_START {
        r := SkipObject();
      } else if last == ARRAY_START {
        r := SkipArray();
      } else if last == 'n' as int {
        var w :- WasNull();
        if !w {
          return Err(IOError("Expecting 'null'"));
        }
        r := GetNextToken();
      } else if last == 't' as int {
        var w :- WasTrue();
        if !w {
          return Err(IOError("Expecting 'true'"));
        }
        r := GetNextToken();
      } else if last == 'f' as int {
        var w :- WasFalse();
        if !w {
          return Err(IOError("Expecting 'false'"));
        }
        r := GetNextToken();
      } else {
        while !ReaderSpec.IsNumberEnd(last)
          invariant Valid() && ReaderSpec.Skip(old(State())) == ReaderSpec.SkipPlain(State())
          decreases buffer.Length - currentIndex
        {
          var b :- Read();
        }
        return Ok(last);
      }
    }

    /** The object branch of `skip()`. */
    method SkipObject() returns (r: Result<Byte>)
      requires Valid()
      modifies this
      ensures Valid() && Agrees(r, ReaderSpec.SkipObject(old(State())))
      decreases buffer.Length - currentIndex, 2
    {
      var from := currentIndex;
      var nextToken :- GetNextToken();
      if nextToken == OBJECT_END {
        r := GetNextToken();
        return;
      }
      if nextToken != QUOTE {
        return Err(IOError("Expecting '\"'"));
      }
      nextToken :- SkipMember();
      while nextToken == COMMA
        invariant Valid() && from < currentIndex
        invariant ReaderSpec.SkipObject(old(State())) == ReaderSpec.SkipMembers(State(), nextToken, from)
        decreases buffer.Length - currentIndex
      {
        nextToken :- GetNextToken();
        if nextToken != QUOTE {
          return Err(IOError("Expecting '\"'"));
        }
        nextToken :- SkipMember();
      }
      if nextToken != OBJECT_END {
        return Err(IOError("Expecting '}'"));
      }
      r := GetNextToken();
    }

    /** One member of an object after the quote that opens its name. */
    method SkipMember() returns (r: Result<Byte>)
      requires Valid()
      modifies this
      ensures Valid() && Agrees(r, ReaderSpec.SkipMember(old(State())))
      decreases buffer.Length - currentIndex, 1
    {
      var nextToken :- SkipString();
      if nextToken != COLON {
        return Err(IOError("Expecting ':'"));
      }
      var v :- GetNextToken();
      r := Skip();
    }

    /** The array branch of `skip()`. */
    method SkipArray() returns (r: Result<Byte>)
      requires Valid()
      modifies this
      ensures Valid() && Agrees(r, ReaderSpec.SkipArray(old(State())))
      decreases buffer.Length - currentIndex, 2
    {
      var from := currentIndex;
      var t :- GetNextToken();
      var nextToken :- Skip();
      while nextToken == COMMA
        invariant Valid() && from < currentIndex
        invariant ReaderSpec.SkipArray(old(State())) == ReaderSpec.SkipElements(State(), nextToken, from)
        decreases buffer.Length - currentIndex
      {
        t :- GetNextToken();
        nextToken :- Skip();
      }
      if nextToken != ARRAY_END {
        return Err(IOError("Expecting ']'"));
      }
      r := GetNextToken();
    }

    /** Takes over the state an element reader left behind. */
    method SetState(st: ReaderSpec.ReaderState)
      requires st.Valid() && st.buf == buffer[..]
      modifies this
      ensures State() == st
    {
      length, currentIndex, last := st.length, st.currentIndex, st.last;
      tokenStart, nameEnd, lastHash, charsLength := st.tokenStart, st.nameEnd, st.lastHash, st.charsLength;
    }

    /** `readObject.read(this)`: the element reader runs on the current
        state and the reader continues from where it stopped. */
    method ReadWith<T>(read: ReaderSpec.ReaderState --> Result<ReaderSpec.Out<T>>) returns (r: Result<T>)
      requires Valid() && Collections.IsElementReader(read)
      modifies this
      ensures Valid() && Agrees(r, read(old(State())))
    {
      var o := read(State());
      match o
      case Err(e) =>
        return Err(e);
      case Ok(out) =>
        SetState(out.st);
        return Ok(out.value);
    }

    /** One element of a collection: with `nullable`, `null` is a null
        element. */
    method ReadElement<T>(nullable: bool, read: ReaderSpec.ReaderState --> Result<ReaderSpec.Out<T>>) returns (r: Result<Option<T>>)
      requires Valid() && Collections.IsElementReader(read)
      modifies this
      ensures Valid() && Agrees(r, Collections.Element(old(State()), nullable, read))
    {
      var isNull := false;
      if nullable {
        isNull :- WasNull();
      }
      if isNull {
        return Ok(None);
      }
      var p :- ReadWith(read);
      return Ok(Some(p));
    }

    /** `deserializeCollection(readObject)` (`nullable` false) and
        `deserializeNullableCollection(readObject)` (`nullable` true): the
        elements up to the closing bracket, in order. */
    method DeserializeCollection<T>(nullable: bool, read: ReaderSpec.ReaderState --> Result<ReaderSpec.Out<T>>) returns (r: Result<seq<Option<T>>>)
      requires Valid() && Collections.IsElementReader(read)
      modifies this
      ensures Valid() && Agrees(r, Collections.Collection(old(State()), nullable, read))
    {
      var first :- ReadElement(nullable, read);
      var res := [first];
      ghost var prev := State();
      var nextToken :- GetNextToken();
      while nextToken == COMMA
        invariant Valid() && prev.Valid() && prev.buf == buffer[..]
        invariant ReaderSpec.NextToken(prev) == Ok(ReaderSpec.Out(nextToken, State()))
        invariant Collections.Collection(old(State()), nullable, read) == Collections.MoreElements(prev, nullable, read, res)
        decreases buffer.Length - currentIndex
      {
        var t :- GetNextToken();
        var e :- ReadElement(nullable, read);
        res := res + [e];
        prev := State();
        nextToken :- GetNextToken();
      }
      var _ :- CheckArrayEnd();
      return Ok(res);
    }
  }

  /** `new JsonReader(buffer, length, ...)` with the default 64-character
      string buffer: a length beyond the buffer is rejected, and a negative
      one fails when the sentinel is written. */
  method NewReader(buffer: array<Byte>, length: int) returns (r: Result<JsonReader>)
    modifies buffer
    ensures r.Err? <==> length < 0 || length > buffer.Length
    ensures length > buffer.Length ==> r == Err(IllegalArgument("length can't be longer than buffer.length"))
    ensures r.Ok? ==> (fresh(r.value) && r.value.buffer == buffer && r.value.Valid()
      && r.value.State() == ReaderSpec.ReaderState(buffer[..], length, 0, ' ' as int, 0, 0, 0, 64))
  {
    if length > buffer.Length {
      return Err(IllegalArgument("length can't be longer than buffer.length"));
    }
    if length < 0 {
      return Err(IndexOutOfBounds);
    }
    var reader := new JsonReader(buffer, length, 64);
    return Ok(reader);
  }
}

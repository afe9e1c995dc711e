/** The JSON writer: a growable byte buffer with a write position. The bytes
    written so far are `result[..position]`; every write method appends to
    them, growing `result` by copying it into a larger array when needed.

    The escaped form of a string is specified by pure functions (section 7 of
    RFC 8259 for escapes, section 3 of RFC 3629 for UTF-8), and the writer's
    methods are proved to append exactly those bytes. */
module JsonWriter {
  import opened Java

  // ---------------------------------------------------------------------
  // The escaped form of a string

  /** An upper-case hexadecimal digit. */
  function HexUpper(d: int): (b: Byte)
    requires 0 <= d < 16
    ensures 0 <= b
  {
    if d < 10 then '0' as int + d else 'A' as int + d - 10
  }

  /** The escape of a control character below 32: the five short forms, and
      `\u00XX` with upper-case hex digits for the rest. */
  function ControlEscape(c: int): (r: seq<Byte>)
    requires 0 <= c < 32
    ensures 2 <= |r| <= 6 && r[0] == BACKSLASH
  {
    if c == 8 then [BACKSLASH, 'b' as int]
    else if c == 9 then [BACKSLASH, 't' as int]
    else if c == 10 then [BACKSLASH, 'n' as int]
    else if c == 12 then [BACKSLASH, 'f' as int]
    else if c == 13 then [BACKSLASH, 'r' as int]
    else if c < 16 then [BACKSLASH, 'u' as int, '0' as int, '0' as int, '0' as int, HexUpper(c)]
    else [BACKSLASH, 'u' as int, '0' as int, '0' as int, '1' as int, HexUpper(c - 16)]
  }

  /** The UTF-8 bytes of a code point from U+0080 on, as Java's shifts and
      masks compute them (`0xC0 | ((cp >> 6) & 0x1F)` and so on); the `(byte)`
      cast of a value from 0x80 to 0xFF subtracts 0x100. */
  function Utf8Bytes(cp: int): (r: seq<Byte>)
    requires 0x80 <= cp < 0x110000
    ensures 2 <= |r| <= 4
  {
    var q1 := cp / 0x40;
    var q2 := q1 / 0x40;
    if cp <= 0x7FF then [0xC0 + q1 % 0x20 - 0x100, 0x80 + cp % 0x40 - 0x100]
    else if cp < 0x10000 then [0xE0 + q2 % 0x10 - 0x100, 0x80 + q1 % 0x40 - 0x100, 0x80 + cp % 0x40 - 0x100]
    else [0xF0 + q2 / 0x40 % 8 - 0x100, 0x80 + q2 % 0x40 - 0x100, 0x80 + q1 % 0x40 - 0x100, 0x80 + cp % 0x40 - 0x100]
  }

  predicate IsHighSurrogate(c: int) { 0xD800 <= c < 0xDC00 }
  predicate IsLowSurrogate(c: int) { 0xDC00 <= c < 0xE000 }

  /** `str.codePointAt(i)`, with the number of code units it spans: a high
      surrogate followed by a low one form a supplementary code point. */
  function CodePointAt(str: seq<Char>, i: int): (r: (int, int))
    requires 0 <= i < |str|
    ensures r.1 == 1 || r.1 == 2
    ensures i + r.1 <= |str|
    ensures r.1 == 1 ==> r.0 == str[i]
    ensures r.1 == 2 ==> 0x10000 <= r.0 < 0x110000
  {
    if IsHighSurrogate(str[i]) && i + 1 < |str| && IsLowSurrogate(str[i + 1]) then
      ((str[i] as int - 0xD800) * 0x400 + (str[i + 1] as int - 0xDC00) + 0x10000, 2)
    else (str[i], 1)
  }

  /** A unit of the escaped form: the bytes for the character at `i`, and the
      number of code units they stand for. */
  datatype Unit = Unit(bytes: seq<Byte>, width: int)

  /** The bytes `writeQuotedString` emits for a character below U+007F:
      quote and backslash escaped, control characters escaped, the rest as
      they are. */
  function AsciiEscape(c: int): (r: seq<Byte>)
    requires 0 <= c < 0x7F
    ensures 1 <= |r| <= 6
  {
    if c == QUOTE then [BACKSLASH, QUOTE]
    else if c == BACKSLASH then [BACKSLASH, BACKSLASH]
    else if c < 32 then ControlEscape(c)
    else [c]
  }

  /** The bytes `writeQuotedString` emits for the code point at `i`, from
      U+007F on: DEL as it is, UTF-8 otherwise. Lone surrogates, U+FFFE and
      U+FFFF are rejected. */
  function CodePointEscape(str: seq<Char>, i: int): (r: Result<Unit>)
    requires 0 <= i < |str| && 0x7F <= str[i]
    ensures r.Ok? ==> (r.value.width == 1 || r.value.width == 2) && i + r.value.width <= |str|
    ensures r.Ok? ==> 1 <= |r.value.bytes| <= 6 * r.value.width
  {
    var (cp, n) := CodePointAt(str, i);
    if cp == 0x7F then Ok(Unit([cp], n))
    else if cp <= 0x7FF then Ok(Unit(Utf8Bytes(cp), n))
    else if cp < 0xD800 || (0xDFFF < cp <= 0xFFFD) then Ok(Unit(Utf8Bytes(cp), n))
    else if 0x10000 <= cp <= 0x10FFFF then Ok(Unit(Utf8Bytes(cp), n))
    else Err(Serialization("Unknown unicode codepoint in string!"))
  }

  /** The branch of `writeQuotedString` for the character at `i`. */
  function EscapeAt(str: seq<Char>, i: int): (r: Result<Unit>)
    requires 0 <= i < |str|
    ensures r.Ok? ==> (r.value.width == 1 || r.value.width == 2) && i + r.value.width <= |str|
    ensures r.Ok? ==> 1 <= |r.value.bytes| <= 6 * r.value.width
  {
    if str[i] < 0x7F then Ok(Unit(AsciiEscape(str[i]), 1)) else CodePointEscape(str, i)
  }

  /** The escaped form of `str[i..]`. */
  function EscapeFrom(str: seq<Char>, i: int): (r: Result<seq<Byte>>)
    requires 0 <= i <= |str|
    ensures r.Ok? ==> |r.value| <= 6 * (|str| - i)
    decreases |str| - i
  {
    if i == |str| then Ok([])
    else
      var u :- EscapeAt(str, i);
      var rest :- EscapeFrom(str, i + u.width);
      Ok(u.bytes + rest)
  }

  /** The escaped form of a whole string, without the quotes. */
  function Escaped(str: seq<Char>): Result<seq<Byte>> {
    EscapeFrom(str, 0)
  }

  /** What `writeString` appends: the escaped string between quotes. */
  function QuotedString(str: seq<Char>): (r: Result<seq<Byte>>)
    ensures r.Ok? <==> Escaped(str).Ok?
    ensures r.Ok? ==> r.value == [QUOTE] + Escaped(str).value + [QUOTE]
    ensures r.Err? ==> r.error == Escaped(str).error
  {
    var e :- Escaped(str);
    Ok([QUOTE] + e + [QUOTE])
  }

  /** `bs` followed by the bytes of `r`, or the error of `r`. */
  function Prepend(bs: seq<Byte>, r: Result<seq<Byte>>): (p: Result<seq<Byte>>)
    ensures bs == [] ==> p == r
  {
    assert r.Ok? ==> [] + r.value == r.value;
    if r.Ok? then Ok(bs + r.value) else r
  }

  /** One step of the escaped form: the unit at `i`, then the rest. */
  lemma EscapeStep(str: seq<Char>, i: int, done: seq<Byte>, u: Unit)
    requires 0 <= i < |str| && EscapeAt(str, i) == Ok(u)
    ensures Prepend(done, EscapeFrom(str, i)) == Prepend(done + u.bytes, EscapeFrom(str, i + u.width))
  {
    var rest := EscapeFrom(str, i + u.width);
    if rest.Ok? {
      assert done + (u.bytes + rest.value) == done + u.bytes + rest.value;
    }
  }

  /** A plain printable character is a unit of its own. */
  lemma EscapePlainStep(str: seq<Char>, i: int, done: seq<Byte>)
    requires 0 <= i < |str| && Plain(str[i])
    ensures Prepend(done, EscapeFrom(str, i)) == Prepend(done + [str[i]], EscapeFrom(str, i + 1))
  {
    EscapeStep(str, i, done, Unit([str[i]], 1));
  }

  /** An unencodable character at `i` is the error of the whole. */
  lemma EscapeStepErr(str: seq<Char>, i: int, done: seq<Byte>)
    requires 0 <= i < |str| && EscapeAt(str, i).Err?
    ensures Prepend(done, EscapeFrom(str, i)) == Err(EscapeAt(str, i).error)
  {
  }

  /** A result with its value dropped. */
  function Void<T>(r: Result<T>): Result<()> {
    if r.Ok? then Ok(()) else Err(r.error)
  }

  /** Plain printable characters are copied as they are, so an ASCII string
      without quotes, backslashes or control characters escapes to its own
      bytes. */
  lemma {:induction false} EscapedPlain(str: seq<Char>, i: int)
    requires 0 <= i <= |str|
    requires forall k | i <= k < |str| :: 32 <= str[k] < 0x7F && str[k] != QUOTE && str[k] != BACKSLASH
    ensures EscapeFrom(str, i) == Ok(str[i..])
    decreases |str| - i
  {
    if i < |str| {
      EscapedPlain(str, i + 1);
      assert str[i..] == [str[i]] + str[i + 1..];
    }
  }

  /** The escaped form never contains a raw quote, so the closing quote that
      `writeString` adds is the first quote after the opening one. */
  lemma {:induction false} EscapedHasNoBareQuote(str: seq<Char>, i: int)
    requires 0 <= i <= |str| && EscapeFrom(str, i).Ok?
    ensures forall k | 0 <= k < |EscapeFrom(str, i).value| ::
      EscapeFrom(str, i).value[k] == QUOTE ==> 0 < k && EscapeFrom(str, i).value[k - 1] == BACKSLASH
    decreases |str| - i
  {
    if i < |str| {
      var u := EscapeAt(str, i).value;
      EscapedHasNoBareQuote(str, i + u.width);
      var rest := EscapeFrom(str, i + u.width).value;
      assert EscapeFrom(str, i).value == u.bytes + rest;
      forall k | 0 <= k < |u.bytes + rest| && (u.bytes + rest)[k] == QUOTE
        ensures 0 < k && (u.bytes + rest)[k - 1] == BACKSLASH
      {
        if k < |u.bytes| {
          assert u.bytes == [BACKSLASH, QUOTE] && k == 1;
        } else {
          assert rest[k - |u.bytes|] == QUOTE;
          if k - |u.bytes| == 0 {
            assert false;
          }
        }
      }
    }
  }

  /** The element of a serialized collection: `null` or a quoted string. */
  function ElementBytes(item: Option<seq<Char>>): Result<seq<Byte>> {
    match item
    case None => Ok(NULL)
    case Some(s) => QuotedString(s)
  }

  /** The first `n` elements separated by single commas, in order. */
  function JoinPrefix(items: seq<Option<seq<Char>>>, n: int): Result<seq<Byte>>
    requires 0 <= n <= |items|
    decreases n
  {
    if n == 0 then Ok([])
    else if n == 1 then ElementBytes(items[0])
    else
      var init :- JoinPrefix(items, n - 1);
      var e :- ElementBytes(items[n - 1]);
      Ok(init + [COMMA] + e)
  }

  /** All elements separated by single commas, in order. */
  function JoinElements(items: seq<Option<seq<Char>>>): Result<seq<Byte>> {
    JoinPrefix(items, |items|)
  }

  /** An error in the first `k` elements is the error of every longer prefix. */
  lemma {:induction false} JoinErrExtends(xs: seq<Option<seq<Char>>>, k: int, n: int)
    requires 1 <= k <= n <= |xs| && JoinPrefix(xs, k).Err?
    ensures JoinPrefix(xs, n) == JoinPrefix(xs, k)
    decreases n
  {
    if k < n {
      JoinErrExtends(xs, k, n - 1);
    }
  }

  /** Joining the first `n` elements looks at nothing after them. */
  lemma {:induction false} JoinPrefixExtend(xs: seq<Option<seq<Char>>>, x: Option<seq<Char>>, n: int)
    requires 0 <= n <= |xs|
    ensures JoinPrefix(xs + [x], n) == JoinPrefix(xs, n)
    decreases n
  {
    if 1 < n {
      JoinPrefixExtend(xs, x, n - 1);
      assert (xs + [x])[n - 1] == xs[n - 1];
    } else if n == 1 {
      assert (xs + [x])[0] == xs[0];
    }
  }

  /** What `serialize(collection, writer)` appends: `null` for a null
      collection, otherwise the elements between brackets. */
  function CollectionBytes(items: Option<seq<Option<seq<Char>>>>): Result<seq<Byte>> {
    match items
    case None => Ok(NULL)
    case Some(xs) =>
      var body :- JoinElements(xs);
      Ok([ARRAY_START] + body + [ARRAY_END])
  }

  /** An empty collection is `[]`. */
  lemma CollectionEmpty()
    ensures CollectionBytes(Some([])) == Ok([ARRAY_START, ARRAY_END])
  {
    assert [ARRAY_START] + [] + [ARRAY_END] == [ARRAY_START, ARRAY_END];
  }

  /** Appending an element to a collection appends a comma and that
      element to its bytes between the brackets. */
  lemma CollectionSnoc(xs: seq<Option<seq<Char>>>, x: Option<seq<Char>>)
    requires xs != []
    requires JoinElements(xs).Ok? && ElementBytes(x).Ok?
    ensures JoinElements(xs + [x]) == Ok(JoinElements(xs).value + [COMMA] + ElementBytes(x).value)
  {
    JoinPrefixExtend(xs, x, |xs|);
    assert (xs + [x])[|xs|] == x;
  }

  // ---------------------------------------------------------------------
  // Growth

  /** Whether `writeNull` at `position` fits after its growth step
      (to one and a half times the length when the four bytes reach the end). */
  predicate NullFits(length: int, position: int) {
    position + 3 < (if position + 4 >= length then length + length / 2 else length)
  }

  /** Whether `writeByte` at `position` fits after its growth step. */
  predicate ByteFits(length: int, position: int) {
    position < (if position == length then length + length / 2 else length)
  }

  /** From eight bytes on, the growth steps of `writeNull` and `writeByte`
      always make room, wherever the position is. */
  lemma RoomyFits(length: int, position: int)
    requires 8 <= length && 0 <= position <= length
    ensures NullFits(length, position) && ByteFits(length, position)
  {
  }

  /** A buffer of four bytes that is nearly full: the growth step of
      `writeNull` gives six bytes, and the fourth byte lands outside. */
  lemma NullDoesNotFitSmallBuffer()
    ensures !NullFits(4, 3)
    ensures !ByteFits(0, 0) && !ByteFits(1, 1)
  {
  }

  /** Appending three pieces one after the other appends their
      concatenation. */
  lemma Append3(a: seq<Byte>, b: seq<Byte>, c: seq<Byte>, d: seq<Byte>)
    ensures a + b + c + d == a + (b + c + d)
  {
  }

  /** One more plain byte after `head` and `done`. */
  lemma PlainAppend(head: seq<Byte>, done: seq<Byte>, c: Byte)
    ensures head + done + [c] == head + (done + [c])
  {
  }

  /** Store `bs` at `at` in `a`. */
  method Store(a: array<Byte>, at: int, bs: seq<Byte>)
    requires 0 <= at && at + |bs| <= a.Length
    modifies a
    ensures a[..at + |bs|] == old(a[..at]) + bs
  {
    var k := 0;
    while k < |bs|
      invariant 0 <= k <= |bs|
      invariant a[..at + k] == old(a[..at]) + bs[..k]
    {
      a[at + k] := bs[k];
      assert a[..at + k + 1] == a[..at + k] + [bs[k]];
      k := k + 1;
    }
  }

  /** The bytes of the character at `i` stored at `cur` in `a`, after
      `head` and the escaped form `done` of the characters before it; `total`
      is the escaped form of the whole string. Returns the index of the next
      character, the index after the stored bytes and the escaped form up to
      there. */
  method StoreUnit(a: array<Byte>, str: seq<Char>, i: int, cur: int,
                   ghost head: seq<Byte>, ghost done: seq<Byte>, ghost total: Result<seq<Byte>>)
    returns (r: Result<Unit>, next: int, end: int, ghost done': seq<Byte>)
    requires 0 <= i < |str| && 0 <= cur && cur + 6 * (|str| - i) <= a.Length
    requires a[..cur] == head + done
    requires total == Prepend(done, EscapeFrom(str, i))
    modifies a
    ensures r.Ok? ==> next == i + r.value.width && end == cur + |r.value.bytes| && done' == done + r.value.bytes
    ensures r.Ok? ==> i < next <= |str| && cur < end <= cur + 6 * (next - i)
    ensures r.Ok? ==> a[..end] == head + done'
    ensures r.Ok? ==> total == Prepend(done', EscapeFrom(str, next))
    ensures r.Err? ==> a[..|head|] == head && total == Err(r.error)
  {
    r := EscapeAt(str, i);
    if r.Ok? {
      next, end, done' := i + r.value.width, cur + |r.value.bytes|, done + r.value.bytes;
      Store(a, cur, r.value.bytes);
      EscapeStep(str, i, done, r.value);
      Append3(head, done, r.value.bytes, []);
      assert done + r.value.bytes + [] == done + r.value.bytes;
    } else {
      next, end, done' := i, cur, done;
      EscapeStepErr(str, i, done);
      assert a[..|head|] == (a[..cur])[..|head|];
    }
  }

  /** The escaping loop of `writeQuotedString`: the escaped form of
      `str[i0..]` stored in `a` from `cur0` on, completing `total`, the
      escaped form of the whole string; returns the index after it. */
  method StoreEscaped(a: array<Byte>, str: seq<Char>, i0: int, cur0: int,
                      ghost head: seq<Byte>, ghost done0: seq<Byte>, ghost total: Result<seq<Byte>>)
    returns (r: Result<int>)
    requires 0 <= i0 <= |str| && 0 <= cur0 <= |head| + 6 * i0 && |head| + 6 * |str| < a.Length
    requires a[..cur0] == head + done0
    requires total == Prepend(done0, EscapeFrom(str, i0))
    modifies a
    ensures r.Ok? ==> total.Ok? && 0 <= r.value <= |head| + 6 * |str|
    ensures r.Ok? ==> a[..r.value] == head + total.value
    ensures r.Err? ==> total == Err(r.error) && a[..|head|] == head
  {
    var cur := cur0;
    var i := i0;
    ghost var done := done0;
    while i < |str|
      invariant i0 <= i <= |str| && 0 <= cur <= |head| + 6 * i
      invariant a[..cur] == head + done
      invariant total == Prepend(done, EscapeFrom(str, i))
      decreases |str| - i
    {
      var e, next, end;
      ghost var done';
      e, next, end, done' := StoreUnit(a, str, i, cur, head, done, total);
      if e.Err? {
        return Err(e.error);
      }
      i, cur, done := next, end, done';
    }
    assert done + [] == done;
    return Ok(cur);
  }

  /** A character the fast path of `writeString` copies as it is. */
  predicate Plain(c: int) {
    31 < c < 126 && c != QUOTE && c != BACKSLASH
  }

  /** A prefix of plain characters escapes to its own bytes. */
  lemma {:induction false} EscapedPlainPrefix(str: seq<Char>, i: int, done: seq<Byte>)
    requires 0 <= i <= |str| && done == str[..i]
    requires forall k | 0 <= k < i :: Plain(str[k])
    ensures Escaped(str) == Prepend(done, EscapeFrom(str, i))
    decreases i
  {
    if 0 < i {
      var init := done[..i - 1];
      EscapedPlainPrefix(str, i - 1, init);
      EscapePlainStep(str, i - 1, init);
      assert init + [str[i - 1]] == done;
    }
  }

  /** The fast path of `writeString`: characters that need no escaping
      are copied as they are, from `cur0` on, until the first one that does.
      Returns the index of that character. */
  method StorePlain(a: array<Byte>, str: seq<Char>, cur0: int, ghost head: seq<Byte>)
    returns (i: int, ghost done: seq<Byte>)
    requires 0 <= cur0 && cur0 + |str| <= a.Length && a[..cur0] == head
    modifies a
    ensures 0 <= i <= |str| && done == str[..i]
    ensures forall k | 0 <= k < i :: Plain(str[k])
    ensures i < |str| ==> !Plain(str[i])
    ensures a[..cur0 + i] == head + done
  {
    i := 0;
    done := [];
    while i < |str| && Plain(str[i])
      invariant 0 <= i <= |str| && done == str[..i]
      invariant forall k | 0 <= k < i :: Plain(str[k])
      invariant a[..cur0 + i] == head + done
    {
      var c: Byte := str[i];
      Store(a, cur0 + i, [c]);
      PlainAppend(head, done, c);
      assert str[..i + 1] == str[..i] + [c];
      done := done + [c];
      i := i + 1;
    }
  }

  /** The body of `writeString` once the buffer has room: the opening
      quote at `p`, the fast path, the escaping loop of `writeQuotedString`
      from the first character that needs escaping, and the closing quote.
      Returns the index after the closing quote. */
  method StoreQuoted(a: array<Byte>, p: int, str: seq<Char>) returns (r: Result<int>)
    requires 0 <= p && p + 6 * |str| + 1 < a.Length
    modifies a
    ensures r.Ok? ==> QuotedString(str).Ok? && r.value == p + |QuotedString(str).value|
    ensures r.Ok? ==> a[..r.value] == old(a[..p]) + QuotedString(str).value
    ensures r.Err? ==> Escaped(str) == Err(r.error) && a[..p] == old(a[..p])
  {
    ghost var head := old(a[..p]) + [QUOTE];
    Store(a, p, [QUOTE]);
    var i, done := StorePlain(a, str, p + 1, head);
    EscapedPlainPrefix(str, i, done);
    var cur := p + 1 + i;
    var end := cur;
    if i < |str| {
      var e := StoreEscaped(a, str, i, cur, head, done, Escaped(str));
      if e.Err? {
        assert a[..p] == head[..p];
        return Err(e.error);
      }
      end := e.value;
    } else {
      assert done + [] == done;
    }
    ghost var escaped := Escaped(str).value;
    assert a[..end] == head + escaped;
    Store(a, end, [QUOTE]);
    assert QuotedString(str).value == [QUOTE] + escaped + [QUOTE];
    Append3(old(a[..p]), [QUOTE], escaped, [QUOTE]);
    return Ok(end + 1);
  }

  class JsonWriter {
    var result: array<Byte>
    var position: int

    ghost predicate Valid()
      reads this
    {
      0 <= position <= result.Length
    }

    /** The bytes written so far. */
    function Contents(): seq<Byte>
      reads this, result
      requires Valid()
    {
      result[..position]
    }

    /** A buffer of at least eight bytes: every growth step then makes room. */
    predicate Roomy()
      reads this
    {
      result.Length >= 8
    }

    /** `new JsonWriter(size, ...)`. */
    constructor (size: nat)
      ensures Valid() && Contents() == [] && result.Length == size && fresh(result)
    {
      result := new Byte[size](_ => 0);
      position := 0;
    }

    /** `new JsonWriter(result, ...)`: writing starts at the beginning of the
        given buffer. */
    constructor FromBuffer(buffer: array<Byte>)
      ensures Valid() && Contents() == [] && result == buffer
    {
      result := buffer;
      position := 0;
    }

    /** `Arrays.copyOf(result, newLength)` stored back into `result`. */
    method CopyOf(newLength: int)
      requires Valid() && result.Length <= newLength
      modifies this
      ensures Valid() && fresh(result) && result.Length == newLength
      ensures position == old(position)
      ensures result[..old(result.Length)] == old(result[..])
    {
      var grown := new Byte[newLength](_ => 0);
      var i := 0;
      while i < result.Length
        modifies grown
        invariant 0 <= i <= result.Length
        invariant grown[..i] == result[..i]
      {
        grown[i] := result[i];
        i := i + 1;
      }
      assert grown[..result.Length] == result[..];
      result := grown;
    }

    /** `ensureCapacity(free)`: afterwards `free` more bytes fit strictly
        before the end, unless the buffer was empty, where the growth step
        yields exactly `free` bytes. */
    method EnsureCapacity(free: nat)
      requires Valid()
      modifies this
      ensures Valid() && Contents() == old(Contents()) && position == old(position)
      ensures old(result.Length) > 0 ==> position + free < result.Length
      ensures old(result.Length) == 0 ==> result.Length == free
      ensures result.Length >= old(result.Length)
      ensures result == old(result) || fresh(result)
      ensures old(position + free < result.Length) ==> result == old(result)
      ensures old(position + free >= result.Length) ==> result.Length == old(3 * result.Length + free)
    {
      if position + free >= result.Length {
        CopyOf(result.Length + 2 * result.Length + free);
        assert result[..position] == old(result[..position]);
      }
    }

    /** `advance(size)`: `size` bytes already stored after the position
        become part of the output. */
    method Advance(size: int)
      requires Valid() && 0 <= position + size <= result.Length
      modifies this
      ensures Valid() && result == old(result) && position == old(position) + size
    {
      position := position + size;
    }

    /** `writeNull()`. */
    method WriteNull() returns (r: Result<()>)
      requires Valid()
      modifies this, result
      ensures result == old(result) || fresh(result)
      ensures Valid() && result.Length >= old(result.Length)
      ensures r == if NullFits(old(result.Length), old(position)) then Ok(()) else Err(IndexOutOfBounds)
      ensures r.Ok? ==> Contents() == old(Contents()) + NULL
      ensures r.Err? ==> Contents() == old(Contents())
    {
      var s := position;
      if !NullFits(result.Length, s) {
        return Err(IndexOutOfBounds);
      }
      ghost var before := Contents();
      if s + 4 >= result.Length {
        CopyOf(result.Length + result.Length / 2);
      }
      Store(result, s, NULL);
      position := s + 4;
      assert result[..position] == result[..s] + result[s..s + 4];
      return Ok(());
    }

    /** `writeByte(c)`. */
    method WriteByte(c: Byte) returns (r: Result<()>)
      requires Valid()
      modifies this, result
      ensures result == old(result) || fresh(result)
      ensures Valid() && result.Length >= old(result.Length)
      ensures r == if ByteFits(old(result.Length), old(position)) then Ok(()) else Err(IndexOutOfBounds)
      ensures r.Ok? ==> Contents() == old(Contents()) + [c]
      ensures r.Err? ==> Contents() == old(Contents())
    {
      if !ByteFits(result.Length, position) {
        return Err(IndexOutOfBounds);
      }
      if position == result.Length {
        CopyOf(result.Length + result.Length / 2);
      }
      var p := position;
      Store(result, p, [c]);
      position := p + 1;
      assert result[..position] == result[..p] + result[p..p + 1];
      return Ok(());
    }

    /** `writeString(str)`: grows the buffer so that six bytes per
        character and the two quotes fit, then writes the quoted, escaped
        string. On an unencodable character nothing is appended. */
    method WriteString(str: seq<Char>) returns (r: Result<()>)
      requires Valid()
      modifies this, result
      ensures result == old(result) || fresh(result)
      ensures Valid() && result.Length >= old(result.Length)
      ensures r == Void(Escaped(str))
      ensures r.Ok? ==> Contents() == old(Contents()) + QuotedString(str).value
      ensures r.Err? ==> Contents() == old(Contents())
    {
      var len := |str|;
      ghost var text := Contents();
      if position + 6 * len + 2 >= result.Length {
        CopyOf(result.Length + result.Length / 2 + 6 * len + 2);
        assert result[..position] == result[..old(result.Length)][..position];
      }
      assert result[..position] == text;
      var e := StoreQuoted(result, position, str);
      if e.Err? {
        return Err(e.error);
      }
      position := e.value;
      return Ok(());
    }

    /** `writeAscii(bytes)`: the bytes as they are. */
    method WriteAscii(bytes: seq<Byte>)
      requires Valid()
      modifies this, result
      ensures result == old(result) || fresh(result)
      ensures Valid() && result.Length >= old(result.Length)
      ensures Contents() == old(Contents()) + bytes
      ensures old(result.Length) >= 2 ==> position < result.Length
    {
      var len := |bytes|;
      if position + len >= result.Length {
        CopyOf(result.Length + result.Length / 2 + len);
      }
      var p := position;
      Store(result, p, bytes);
      position := p + len;
      assert result[..position] == old(result[..p]) + bytes;
    }

    /** `size()`. */
    method Size() returns (n: int)
      requires Valid()
      ensures n == |Contents()|
    {
      return position;
    }

    /** `reset()`: the writer is empty again; the buffer is kept. */
    method Reset()
      requires Valid()
      modifies this
      ensures Valid() && Contents() == [] && result == old(result)
    {
      position := 0;
    }

    /** `toByteArray()`: a fresh copy of exactly the bytes written. */
    method ToByteArray() returns (bytes: array<Byte>)
      requires Valid()
      ensures fresh(bytes) && bytes[..] == Contents()
    {
      bytes := new Byte[position](_ => 0);
      var i := 0;
      while i < position
        invariant 0 <= i <= position
        invariant bytes[..i] == result[..i]
      {
        bytes[i] := result[i];
        i := i + 1;
      }
    }

    /** One element of `serialize(collection, writer)`: `null`, or the
        element's writer, here `writeString`. */
    method WriteElement(item: Option<seq<Char>>) returns (r: Result<()>)
      requires Valid()
      modifies this, result
      ensures result == old(result) || fresh(result)
      ensures Valid() && result.Length >= old(result.Length)
      ensures r.Ok? ==> ElementBytes(item).Ok? && Contents() == old(Contents()) + ElementBytes(item).value
      ensures old(Roomy()) ==> r == Void(ElementBytes(item))
    {
      match item
      case None =>
        if old(Roomy()) {
          RoomyFits(result.Length, position);
        }
        r := WriteNull();
      case Some(s) =>
        r := WriteString(s);
    }

    /** The elements of `serialize(collection, writer)`: the first one,
        then a comma before each further one. */
    method WriteElements(xs: seq<Option<seq<Char>>>) returns (r: Result<()>)
      requires Valid()
      modifies this, result
      ensures result == old(result) || fresh(result)
      ensures Valid() && result.Length >= old(result.Length)
      ensures r.Ok? ==> JoinElements(xs).Ok? && Contents() == old(Contents()) + JoinElements(xs).value
      ensures old(Roomy()) ==> r == Void(JoinElements(xs))
    {
      if |xs| == 0 {
        assert JoinElements(xs) == Ok([]);
        assert Contents() + [] == Contents();
        return Ok(());
      }
      ghost var start := Contents();
      r := WriteElement(xs[0]);
      if r.Err? {
        if ElementBytes(xs[0]).Err? {
          JoinErrExtends(xs, 1, |xs|);
        }
        return;
      }
      var i := 1;
      while i < |xs|
        invariant 1 <= i <= |xs| && Valid() && result.Length >= old(result.Length)
        invariant result == old(result) || fresh(result)
        invariant old(Roomy()) ==> Roomy()
        invariant JoinPrefix(xs, i).Ok?
        invariant Contents() == start + JoinPrefix(xs, i).value
        decreases |xs| - i
      {
        var next;
        r, next := WriteNextElement(xs, i, start);
        if r.Err? {
          return;
        }
        i := next;
      }
      assert JoinElements(xs) == JoinPrefix(xs, i);
      r := Ok(());
    }

    /** A comma and the element at `i`, after the first `i` elements, which
        follow `start`. Returns the index of the element after it. */
    method WriteNextElement(xs: seq<Option<seq<Char>>>, i: int, ghost start: seq<Byte>) returns (r: Result<()>, next: int)
      requires Valid() && 1 <= i < |xs| && JoinPrefix(xs, i).Ok?
      requires Contents() == start + JoinPrefix(xs, i).value
      modifies this, result
      ensures result == old(result) || fresh(result)
      ensures Valid() && result.Length >= old(result.Length)
      ensures r.Ok? ==> next == i + 1 && JoinPrefix(xs, next).Ok? && Contents() == start + JoinPrefix(xs, next).value
      ensures old(Roomy()) && r.Err? ==> JoinElements(xs) == Err(r.error)
    {
      next := i + 1;
      if Roomy() {
        RoomyFits(result.Length, position);
      }
      r := WriteByte(COMMA);
      if r.Err? {
        return;
      }
      r := WriteElement(xs[i]);
      if r.Err? {
        if ElementBytes(xs[i]).Err? {
          JoinErrExtends(xs, i + 1, |xs|);
        }
        return;
      }
      Append3(start, JoinPrefix(xs, i).value, [COMMA], ElementBytes(xs[i]).value);
    }

    /** `serialize(list, writer)` (and the array and collection overloads,
        which differ only in how they iterate): `null` for a null collection,
        otherwise `[`, the elements separated by commas in order, and `]`. */
    method Serialize(items: Option<seq<Option<seq<Char>>>>) returns (r: Result<()>)
      requires Valid()
      modifies this, result
      ensures result == old(result) || fresh(result)
      ensures Valid() && result.Length >= old(result.Length)
      ensures r.Ok? ==> CollectionBytes(items).Ok? && Contents() == old(Contents()) + CollectionBytes(items).value
      ensures old(Roomy()) ==> r == Void(CollectionBytes(items))
    {
      if Roomy() {
        RoomyFits(result.Length, position);
      }
      if items.None? {
        r := WriteNull();
        return;
      }
      r := WriteByte(ARRAY_START);
      if r.Err? {
        return;
      }
      ghost var before := old(Contents());
      r := WriteElements(items.value);
      if r.Err? {
        return;
      }
      if Roomy() {
        RoomyFits(result.Length, position);
      }
      r := WriteByte(ARRAY_END);
      if r.Ok? {
        Append3(before, [ARRAY_START], JoinElements(items.value).value, [ARRAY_END]);
      }
    }
  }
}

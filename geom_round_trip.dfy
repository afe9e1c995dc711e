/** The geometry readers read back what the geometry writers write. An
    object of `int` attributes without whitespace is read attribute by
    attribute, the keys matched ignoring case; from it follow the point
    and rectangle round trips and the rules for repeated, unknown and
    missing keys. */
module GeomRoundTrip {
  import opened Java
  import opened DecimalText
  import opened ReaderSpec
  import opened Geometry
  import opened GeomReading
  import JsonWriter
  import NumberReading
  import NumberProperties
  import StringCodec

  /** A decimal starts with a sign or a digit. */
  lemma DecimalStart(v: int)
    ensures !IsWhitespace(Decimal(v)[0]) && Decimal(v)[0] != QUOTE
  {
    if v >= 0 {
      assert IsDigit(DecimalDigits(v)[0]);
    } else {
      assert Decimal(v)[0] == MINUS;
    }
  }

  /** `parseString` read the name `n`. Stated under `Hold(())`, so that
      the string parser does not open where the name is only passed on. */
  ghost predicate NameRead(s: ReaderState, n: Out<seq<Char>>)
    requires s.Valid()
  {
    forall u: () {:trigger Hold(u)} :: Hold(u) ==> ParseString(s) == Ok(n)
  }

  /** `ReadAttribute` read the attribute `e`, stated under `Hold(())` like
      `NameRead`. */
  ghost predicate AttributeRead(s: ReaderState, d: Dialect, keys: seq<seq<Char>>, vals: seq<int>,
                                generic: NumberReading.Generic, tmpLength: int, e: Out<seq<int>>)
    requires s.Valid() && |vals| == |keys|
  {
    forall u: () {:trigger Hold(u)} :: Hold(u) ==> ReadAttribute(s, d, keys, vals, generic, tmpLength) == Ok(e)
  }

  /** `ReadAttribute` step by step: the name, the colon, the value. */
  lemma ReadAttributeUnfold(s: ReaderState, d: Dialect, keys: seq<seq<Char>>, vals: seq<int>,
                            generic: NumberReading.Generic, tmpLength: int,
                            n: Out<seq<Char>>, c: Out<Byte>, f: Out<Byte>, o: Out<int>)
    requires s.Valid() && |vals| == |keys|
    requires NameRead(s, n) && n.st.Valid() && NextToken(n.st) == Ok(c) && c.value == COLON
    requires c.st.Valid() && NextToken(c.st) == Ok(f) && f.st.Valid()
    requires NumberReading.ReadIntegral(f.st, false, generic, tmpLength) == Ok(o)
    ensures AttributeRead(s, d, keys, vals, generic, tmpLength, Out(Assign(keys, vals, n.value, o.value), o.st))
  {
    assert Hold(());
  }

  /** The bytes of an attribute: its quoted name, a colon, its decimal. */
  lemma AttributeLayout(buf: seq<Byte>, start: int, a: Attribute) returns (q: seq<Byte>)
    requires WritableAttribute(a) && StringCodec.BytesAt(buf, start - 1, AttributeBytes(a))
    requires start - 1 + |AttributeBytes(a)| < |buf|
    ensures JsonWriter.QuotedString(a.name) == Ok(q) && |AttributeBytes(a)| == |q| + 1 + |Decimal(a.value)|
    ensures StringCodec.BytesAt(buf, start - 1, q) && buf[start + |q| - 1] == COLON
    ensures StringCodec.BytesAt(buf, start + |q|, Decimal(a.value))
    ensures buf[start + |q| + |Decimal(a.value)|] == buf[start - 1 + |AttributeBytes(a)|]
  {
    var at := start - 1;
    q := JsonWriter.QuotedString(a.name).value;
    var dv := Decimal(a.value);
    assert AttributeBytes(a) == q + ([COLON] + dv);
    StringCodec.BytesAtSplit(buf, at, q, [COLON] + dv);
    StringCodec.BytesAtSplit(buf, at + |q|, [COLON], dv);
    assert buf[at + |q| + 0] == [COLON][0];
  }

  /** A decimal in the input, its first byte just read and a `,`, `}` or
      `]` after it, is a token `deserializeInt` reads back. */
  lemma DecimalAhead(s: ReaderState, p: int, v: int, generic: NumberReading.Generic, tmpLength: int) returns (o: Out<int>)
    requires s.Valid() && IsInt(v) && 1 <= s.currentIndex == p + 1 && s.last == Decimal(v)[0]
    requires StringCodec.BytesAt(s.buf, p, Decimal(v))
    requires p + |Decimal(v)| < s.length && IsNumberEnd(s.buf[p + |Decimal(v)|])
    ensures NumberReading.ReadIntegral(s, false, generic, tmpLength) == Ok(o)
    ensures o.value == v && o.st.currentIndex == p + |Decimal(v)| && o.st.charsLength == s.charsLength
  {
    var dv := Decimal(v);
    assert s.buf[p..p + |dv|] == dv;
    NumberProperties.ReadIntegralDecimal(s, v, false, generic, tmpLength);
    o := NumberReading.ReadIntegral(s, false, generic, tmpLength).value;
  }

  /** One written attribute, with `last` on its opening quote and a `,`,
      `}` or `]` after it, is read back into the coordinates, the cursor
      stopping on the byte after it. */
  lemma AttributeRoundTrip(s: ReaderState, d: Dialect, keys: seq<seq<Char>>, vals: seq<int>, a: Attribute,
                           generic: NumberReading.Generic, tmpLength: int) returns (e: Out<seq<int>>)
    requires s.Valid() && 2 <= s.charsLength && |vals| == |keys|
    requires WritableAttribute(a) && StringCodec.ReadsBack(ExtraUnit, a.name) && s.last == QUOTE
    requires 1 <= s.currentIndex && StringCodec.BytesAt(s.buf, s.currentIndex - 1, AttributeBytes(a))
    requires s.currentIndex - 1 + |AttributeBytes(a)| < s.length
    requires IsNumberEnd(s.buf[s.currentIndex - 1 + |AttributeBytes(a)|])
    ensures AttributeRead(s, d, keys, vals, generic, tmpLength, e) && e.value == Assign(keys, vals, a.name, a.value)
    ensures Moves(s, e.st) && e.st.currentIndex == s.currentIndex - 1 + |AttributeBytes(a)| && 2 <= e.st.charsLength
  {
    var q := AttributeLayout(s.buf, s.currentIndex, a);
    e := NamedValueRoundTrip(s, d, keys, vals, a.name, a.value, q, generic, tmpLength);
  }

  /** A quoted name `q`, a colon and a decimal, read back. */
  lemma NamedValueRoundTrip(s: ReaderState, d: Dialect, keys: seq<seq<Char>>, vals: seq<int>,
                            name: seq<Char>, v: int, q: seq<Byte>, generic: NumberReading.Generic, tmpLength: int)
    returns (e: Out<seq<int>>)
    requires s.Valid() && 2 <= s.charsLength && |vals| == |keys| && IsInt(v) && s.last == QUOTE
    requires JsonWriter.QuotedString(name) == Ok(q) && StringCodec.ReadsBack(ExtraUnit, name) && 1 <= s.currentIndex
    requires s.currentIndex + |q| + |Decimal(v)| < s.length
    requires StringCodec.BytesAt(s.buf, s.currentIndex - 1, q) && s.buf[s.currentIndex + |q| - 1] == COLON
    requires StringCodec.BytesAt(s.buf, s.currentIndex + |q|, Decimal(v))
    requires IsNumberEnd(s.buf[s.currentIndex + |q| + |Decimal(v)|])
    ensures AttributeRead(s, d, keys, vals, generic, tmpLength, e) && e.value == Assign(keys, vals, name, v)
    ensures Moves(s, e.st) && e.st.currentIndex == s.currentIndex + |q| + |Decimal(v)| && 2 <= e.st.charsLength
  {
    var n := NameRoundTrip(s, name, q);
    var c, f, o := ColonThenValue(n.st, s.currentIndex + |q| - 1, s.currentIndex + |q|,
                                  s.currentIndex + |q| + |Decimal(v)|, v, generic, tmpLength);
    ReadAttributeUnfold(s, d, keys, vals, generic, tmpLength, n, c, f, o);
    e := Out(Assign(keys, vals, name, v), o.st);
  }

  /** The quoted name, read back by `parseString` as written. */
  lemma NameRoundTrip(s: ReaderState, name: seq<Char>, q: seq<Byte>) returns (n: Out<seq<Char>>)
    requires s.Valid() && 2 <= s.charsLength && s.last == QUOTE && 1 <= s.currentIndex
    requires JsonWriter.QuotedString(name) == Ok(q) && StringCodec.ReadsBack(ExtraUnit, name)
    requires StringCodec.BytesAt(s.buf, s.currentIndex - 1, q) && s.currentIndex - 1 + |q| <= s.length
    ensures NameRead(s, n) && n.value == name && n.st.Valid() && Moves(s, n.st)
    ensures n.st.currentIndex == s.currentIndex - 1 + |q| && 2 <= n.st.charsLength
  {
    StringCodec.ParseStringRoundTrip(s, name, q, ExtraUnit);
    n := ParseString(s).value;
    assert Hold(());
  }

  /** After the name: the colon, then the value and a `,`, `}` or `]`. */
  lemma ColonThenValue(t: ReaderState, colon: int, at: int, end: int, v: int, generic: NumberReading.Generic, tmpLength: int)
    returns (c: Out<Byte>, f: Out<Byte>, o: Out<int>)
    requires t.Valid() && IsInt(v) && colon == t.currentIndex && at == colon + 1 && end == at + |Decimal(v)| < t.length
    requires t.buf[colon] == COLON && StringCodec.BytesAt(t.buf, at, Decimal(v)) && IsNumberEnd(t.buf[end])
    ensures NextToken(t) == Ok(c) && c.value == COLON && c.st.Valid()
    ensures NextToken(c.st) == Ok(f) && f.st.Valid()
    ensures NumberReading.ReadIntegral(f.st, false, generic, tmpLength) == Ok(o)
    ensures o.value == v && o.st.currentIndex == end && o.st.charsLength == t.charsLength
  {
    NextTokenPlain(t);
    c := NextToken(t).value;
    DecimalStart(v);
    assert t.buf[at + 0] == Decimal(v)[0];
    NextTokenPlain(c.st);
    f := NextToken(c.st).value;
    o := DecimalAhead(f.st, at, v, generic, tmpLength);
  }

  /** No attribute name holds a surrogate, so `parseString` as written reads
      each name back. */
  predicate NamesReadBack(attrs: seq<Attribute>) {
    forall i | 0 <= i < |attrs| :: StringCodec.ReadsBack(ExtraUnit, attrs[i].name)
  }

  /** The reader stands just before the comma of attribute `k` of `attrs`,
      the remaining attributes and the closing brace lying ahead within the
      input. */
  ghost predicate Ahead(s: ReaderState, attrs: seq<Attribute>, k: int)
    requires Writable(attrs) && 0 <= k <= |attrs|
  {
    && s.Valid() && 2 <= s.charsLength
    && StringCodec.BytesAt(s.buf, s.currentIndex, Tail(Encoded(attrs), k) + [OBJECT_END])
    && s.currentIndex + |Tail(Encoded(attrs), k)| + 1 <= s.length
  }

  /** Where the reader stops: just after the closing brace. */
  function EndOf(s: ReaderState, attrs: seq<Attribute>, k: int): int
    requires Writable(attrs) && 0 <= k <= |attrs|
  {
    s.currentIndex + |Tail(Encoded(attrs), k)| + 1
  }

  /** What follows an attribute starts with a `,` or the `}`. */
  lemma TailStart(attrs: seq<Attribute>, k: int)
    requires Writable(attrs) && 0 <= k <= |attrs|
    ensures var rest := Tail(Encoded(attrs), k) + [OBJECT_END];
      rest[0] == if k < |attrs| then COMMA else OBJECT_END
  {
  }

  /** The attributes up to `k + 1` settle as those up to `k` and then
      attribute `k`. */
  lemma SettleSnoc(keys: seq<seq<Char>>, vals: seq<int>, attrs: seq<Attribute>, k: int)
    requires |vals| == |keys| && 0 <= k < |attrs|
    ensures Settle(keys, vals, attrs[..k + 1]) == Assign(keys, Settle(keys, vals, attrs[..k]), attrs[k].name, attrs[k].value)
  {
    assert attrs[..k + 1][..k] == attrs[..k];
  }

  /** The loop from `s` with `vals` ends as the loop from `e` with
      `e.value`, stated under `Hold(())` like `NameRead`. */
  ghost predicate LoopGoesOn(s: ReaderState, d: Dialect, keys: seq<seq<Char>>, vals: seq<int>,
                             generic: NumberReading.Generic, tmpLength: int, e: Out<seq<int>>)
    requires s.Valid() && e.st.Valid() && |vals| == |keys| && |e.value| == |keys|
  {
    forall u: () {:trigger Hold(u)} :: Hold(u) ==>
      MoreAttributes(s, d, keys, vals, generic, tmpLength) == MoreAttributes(e.st, d, keys, e.value, generic, tmpLength)
  }

  /** The object from `s` ends as the loop from `e` with `e.value`, stated
      under `Hold(())`. */
  ghost predicate LoopTakesOver(s: ReaderState, d: Dialect, keys: seq<seq<Char>>,
                                generic: NumberReading.Generic, tmpLength: int, e: Out<seq<int>>)
    requires s.Valid() && e.st.Valid() && |e.value| == |keys|
  {
    forall u: () {:trigger Hold(u)} :: Hold(u) ==>
      Attributes(s, d, keys, generic, tmpLength) == MoreAttributes(e.st, d, keys, e.value, generic, tmpLength)
  }

  /** After a comma the loop reads an attribute and goes on. */
  lemma MoreUnfold(s: ReaderState, d: Dialect, keys: seq<seq<Char>>, vals: seq<int>,
                   generic: NumberReading.Generic, tmpLength: int, t: Out<Byte>, f: Out<Byte>, e: Out<seq<int>>)
    requires s.Valid() && |vals| == |keys| && t.st.Valid() && f.st.Valid()
    requires NextToken(s) == Ok(t) && t.value == COMMA && NextToken(t.st) == Ok(f)
    requires AttributeRead(f.st, d, keys, vals, generic, tmpLength, e) && e.st.Valid() && |e.value| == |keys|
    ensures LoopGoesOn(s, d, keys, vals, generic, tmpLength, e)
  {
    assert Hold(());
  }

  /** An object that does not close at once: its first attribute is read
      and the loop takes over. */
  lemma FirstUnfold(s: ReaderState, d: Dialect, keys: seq<seq<Char>>,
                    generic: NumberReading.Generic, tmpLength: int, t: Out<Byte>, e: Out<seq<int>>)
    requires s.Valid() && s.last == OBJECT_START && t.st.Valid()
    requires NextToken(s) == Ok(t) && t.value != OBJECT_END
    requires AttributeRead(t.st, d, keys, Zeros(|keys|), generic, tmpLength, e) && e.st.Valid() && |e.value| == |keys|
    ensures LoopTakesOver(s, d, keys, generic, tmpLength, e)
  {
    assert Hold(());
  }

  /** The same bytes, named by an equal position in an equal input. */
  lemma BytesAtMoved(buf: seq<Byte>, buf': seq<Byte>, at: int, at': int, bs: seq<Byte>)
    requires StringCodec.BytesAt(buf, at, bs) && buf' == buf && at' == at
    ensures StringCodec.BytesAt(buf', at', bs)
  {
  }

  /** The reader has just read the opening quote of attribute `k`: that
      attribute, the ones after it and the closing brace lie ahead within
      the input. */
  ghost predicate Behind(u: ReaderState, attrs: seq<Attribute>, k: int)
    requires Writable(attrs) && 0 <= k < |attrs|
  {
    && u.Valid() && 2 <= u.charsLength && u.last == QUOTE && 1 <= u.currentIndex
    && StringCodec.BytesAt(u.buf, u.currentIndex - 1, Encoded(attrs)[k] + (Tail(Encoded(attrs), k + 1) + [OBJECT_END]))
    && EndFrom(u, attrs, k) <= u.length
  }

  /** Where the reader stops, seen from the opening quote of attribute `k`. */
  function EndFrom(u: ReaderState, attrs: seq<Attribute>, k: int): int
    requires Writable(attrs) && 0 <= k < |attrs|
  {
    u.currentIndex - 1 + |Encoded(attrs)[k]| + |Tail(Encoded(attrs), k + 1)| + 1
  }

  /** Attribute `k`, its opening quote just read, is read back, and the
      reader stands before what follows it. */
  lemma AttributeThenRest(u: ReaderState, d: Dialect, keys: seq<seq<Char>>, vals: seq<int>, attrs: seq<Attribute>, k: int,
                          generic: NumberReading.Generic, tmpLength: int) returns (e: Out<seq<int>>)
    requires Writable(attrs) && NamesReadBack(attrs) && 0 <= k < |attrs| && |vals| == |keys| && Behind(u, attrs, k)
    ensures AttributeRead(u, d, keys, vals, generic, tmpLength, e) && e.value == Assign(keys, vals, attrs[k].name, attrs[k].value)
    ensures e.st.Valid() && Ahead(e.st, attrs, k + 1) && EndOf(e.st, attrs, k + 1) == EndFrom(u, attrs, k)
  {
    TailStart(attrs, k + 1);
    assert Encoded(attrs)[k] == AttributeBytes(attrs[k]);
    e := AttributeBeforeRest(u, d, keys, vals, attrs[k], Tail(Encoded(attrs), k + 1) + [OBJECT_END], generic, tmpLength);
  }

  /** An attribute, its opening quote just read, followed by `rest`, which
      starts with a `,`, `}` or `]`: the attribute is read back and the
      reader stands before `rest`. */
  lemma AttributeBeforeRest(u: ReaderState, d: Dialect, keys: seq<seq<Char>>, vals: seq<int>, a: Attribute, rest: seq<Byte>,
                            generic: NumberReading.Generic, tmpLength: int) returns (e: Out<seq<int>>)
    requires WritableAttribute(a) && StringCodec.ReadsBack(ExtraUnit, a.name) && |vals| == |keys|
    requires u.Valid() && 2 <= u.charsLength && u.last == QUOTE && 1 <= u.currentIndex
    requires StringCodec.BytesAt(u.buf, u.currentIndex - 1, AttributeBytes(a) + rest) && rest != [] && IsNumberEnd(rest[0])
    requires u.currentIndex - 1 + |AttributeBytes(a)| + |rest| <= u.length
    ensures AttributeRead(u, d, keys, vals, generic, tmpLength, e) && e.value == Assign(keys, vals, a.name, a.value)
    ensures e.st.Valid() && 2 <= e.st.charsLength && StringCodec.BytesAt(e.st.buf, e.st.currentIndex, rest)
    ensures e.st.currentIndex == u.currentIndex - 1 + |AttributeBytes(a)| && e.st.length == u.length
  {
    var ab, at := AttributeBytes(a), u.currentIndex - 1;
    StringCodec.BytesAtSplit(u.buf, at, ab, rest);
    assert u.buf[at + |ab| + 0] == rest[0];
    e := AttributeRoundTrip(u, d, keys, vals, a, generic, tmpLength);
    BytesAtMoved(u.buf, e.st.buf, at + |ab|, e.st.currentIndex, rest);
  }

  /** A lead byte and the rest, one after the other. */
  lemma LeadThen(buf: seq<Byte>, at: int, lead: Byte, more: seq<Byte>)
    requires StringCodec.BytesAt(buf, at, [lead] + more) && more != []
    ensures at + 1 < |buf| && buf[at] == lead && buf[at + 1] == more[0] && StringCodec.BytesAt(buf, at + 1, more)
  {
    StringCodec.BytesAtSplit(buf, at, [lead], more);
    assert buf[at + 0] == ([lead] + more)[0];
    assert buf[at + 1 + 0] == more[0];
  }

  /** `[x] + a + b + [y]`, grouped from the right. */
  lemma Regroup(x: Byte, a: seq<Byte>, b: seq<Byte>, y: Byte)
    ensures [x] + a + b + [y] == [x] + (a + (b + [y]))
  {
  }

  /** The bytes before attribute `k` of the loop: its `,`, then the
      attribute from its opening `"` on. */
  lemma CommaBytes(buf: seq<Byte>, at: int, parts: seq<seq<Byte>>, k: int)
    requires 0 <= k < |parts| && parts[k] != [] && parts[k][0] == QUOTE
    requires StringCodec.BytesAt(buf, at, Tail(parts, k) + [OBJECT_END])
    ensures at + 1 < |buf| && buf[at] == COMMA && buf[at + 1] == QUOTE
    ensures StringCodec.BytesAt(buf, at + 1, parts[k] + (Tail(parts, k + 1) + [OBJECT_END]))
    ensures |Tail(parts, k)| == 1 + |parts[k]| + |Tail(parts, k + 1)|
  {
    Regroup(COMMA, parts[k], Tail(parts, k + 1), OBJECT_END);
    LeadThen(buf, at, COMMA, parts[k] + (Tail(parts, k + 1) + [OBJECT_END]));
  }

  /** The bytes of a non-empty object: its `{`, then the first attribute
      from its opening `"` on. */
  lemma BraceBytes(buf: seq<Byte>, at: int, parts: seq<seq<Byte>>)
    requires parts != [] && parts[0] != [] && parts[0][0] == QUOTE
    requires StringCodec.BytesAt(buf, at, Braced(parts))
    ensures at + 1 < |buf| && buf[at + 1] == QUOTE
    ensures StringCodec.BytesAt(buf, at + 1, parts[0] + (Tail(parts, 1) + [OBJECT_END]))
    ensures |Braced(parts)| == 1 + |parts[0]| + |Tail(parts, 1)| + 1
  {
    Regroup(OBJECT_START, parts[0], Tail(parts, 1), OBJECT_END);
    LeadThen(buf, at, OBJECT_START, parts[0] + (Tail(parts, 1) + [OBJECT_END]));
  }

  /** A byte that is not whitespace, read as the next token. */
  lemma PlainToken(s: ReaderState) returns (t: Out<Byte>)
    requires s.Valid() && s.currentIndex < s.length && !IsWhitespace(s.buf[s.currentIndex])
    ensures NextToken(s) == Ok(t) && t.value == s.buf[s.currentIndex]
    ensures t.st == s.(currentIndex := s.currentIndex + 1, last := s.buf[s.currentIndex]) && t.st.Valid()
  {
    NextTokenPlain(s);
    t := NextToken(s).value;
  }

  /** Before attribute `k` of the loop: its `,` and its opening `"`, read
      as two tokens. */
  lemma CommaThenQuote(s: ReaderState, attrs: seq<Attribute>, k: int) returns (t: Out<Byte>, f: Out<Byte>)
    requires Writable(attrs) && 0 <= k < |attrs| && Ahead(s, attrs, k)
    ensures NextToken(s) == Ok(t) && t.value == COMMA && t.st.Valid() && NextToken(t.st) == Ok(f)
    ensures f.st.Valid() && Behind(f.st, attrs, k) && EndFrom(f.st, attrs, k) == EndOf(s, attrs, k)
  {
    assert Encoded(attrs)[k] == AttributeBytes(attrs[k]);
    CommaBytes(s.buf, s.currentIndex, Encoded(attrs), k);
    t := PlainToken(s);
    f := PlainToken(t.st);
    BytesAtMoved(s.buf, f.st.buf, s.currentIndex + 1, f.st.currentIndex - 1,
                 Encoded(attrs)[k] + (Tail(Encoded(attrs), k + 1) + [OBJECT_END]));
  }

  /** The `{` of a non-empty object just read: its first attribute's
      opening `"` is the next token. */
  lemma BraceThenQuote(s: ReaderState, attrs: seq<Attribute>) returns (t: Out<Byte>)
    requires s.Valid() && 2 <= s.charsLength && Writable(attrs) && attrs != [] && s.last == OBJECT_START
    requires 1 <= s.currentIndex && StringCodec.BytesAt(s.buf, s.currentIndex - 1, ObjectBytes(attrs))
    requires s.currentIndex - 1 + |ObjectBytes(attrs)| <= s.length
    ensures NextToken(s) == Ok(t) && t.value != OBJECT_END && t.st.Valid()
    ensures Behind(t.st, attrs, 0) && EndFrom(t.st, attrs, 0) == s.currentIndex - 1 + |ObjectBytes(attrs)|
  {
    assert Encoded(attrs)[0] == AttributeBytes(attrs[0]);
    BraceBytes(s.buf, s.currentIndex - 1, Encoded(attrs));
    t := PlainToken(s);
    BytesAtMoved(s.buf, t.st.buf, s.currentIndex, t.st.currentIndex - 1,
                 Encoded(attrs)[0] + (Tail(Encoded(attrs), 1) + [OBJECT_END]));
  }

  /** One turn of the loop: a comma, then attribute `k`. */
  lemma MoreStep(s: ReaderState, d: Dialect, keys: seq<seq<Char>>, vals: seq<int>, attrs: seq<Attribute>, k: int,
                 generic: NumberReading.Generic, tmpLength: int) returns (e: Out<seq<int>>)
    requires Writable(attrs) && NamesReadBack(attrs) && 0 <= k < |attrs| && |vals| == |keys| && Ahead(s, attrs, k)
    ensures e.value == Settle(keys, vals, attrs[..k + 1]) && Ahead(e.st, attrs, k + 1)
    ensures EndOf(e.st, attrs, k + 1) == EndOf(s, attrs, k)
    ensures LoopGoesOn(s, d, keys, Settle(keys, vals, attrs[..k]), generic, tmpLength, e)
  {
    var t, f := CommaThenQuote(s, attrs, k);
    var before := Settle(keys, vals, attrs[..k]);
    e := AttributeThenRest(f.st, d, keys, before, attrs, k, generic, tmpLength);
    MoreUnfold(s, d, keys, before, generic, tmpLength, t, f, e);
    SettleSnoc(keys, vals, attrs, k);
  }

  /** On the closing brace the loop ends with what it has read. */
  lemma MoreEnd(s: ReaderState, d: Dialect, keys: seq<seq<Char>>, vals: seq<int>, attrs: seq<Attribute>,
                generic: NumberReading.Generic, tmpLength: int)
    requires Writable(attrs) && |vals| == |keys| && Ahead(s, attrs, |attrs|)
    ensures MoreAttributes(s, d, keys, vals, generic, tmpLength)
         == Ok(Out(vals, s.(currentIndex := s.currentIndex + 1, last := OBJECT_END)))
  {
    assert Tail(Encoded(attrs), |attrs|) == [];
    assert s.buf[s.currentIndex + 0] == ([] + [OBJECT_END])[0];
    NextTokenPlain(s);
  }

  /** The loop reads the attributes from `k` on and the closing brace. */
  lemma {:induction false} MoreRoundTrip(s: ReaderState, d: Dialect, keys: seq<seq<Char>>, vals: seq<int>,
                                         attrs: seq<Attribute>, k: int, generic: NumberReading.Generic, tmpLength: int)
    requires Writable(attrs) && NamesReadBack(attrs) && 0 <= k <= |attrs| && |vals| == |keys| && Ahead(s, attrs, k)
    ensures var r := MoreAttributes(s, d, keys, Settle(keys, vals, attrs[..k]), generic, tmpLength);
      r.Ok? && r.value.value == Settle(keys, vals, attrs) && r.value.st.currentIndex == EndOf(s, attrs, k)
    decreases |attrs| - k
  {
    if k == |attrs| {
      assert attrs[..k] == attrs;
      MoreEnd(s, d, keys, Settle(keys, vals, attrs), attrs, generic, tmpLength);
    } else {
      var e := MoreStep(s, d, keys, vals, attrs, k, generic, tmpLength);
      MoreRoundTrip(e.st, d, keys, vals, attrs, k + 1, generic, tmpLength);
      assert Hold(());
    }
  }

  /** The empty object `{}`: every coordinate stays 0. */
  lemma EmptyObjectRoundTrip(s: ReaderState, d: Dialect, keys: seq<seq<Char>>,
                             generic: NumberReading.Generic, tmpLength: int)
    requires s.Valid() && s.last == OBJECT_START
    requires 1 <= s.currentIndex && StringCodec.BytesAt(s.buf, s.currentIndex - 1, ObjectBytes([]))
    requires s.currentIndex + 1 <= s.length
    ensures var r := Attributes(s, d, keys, generic, tmpLength);
      r.Ok? && r.value.value == Zeros(|keys|) && r.value.st.currentIndex == s.currentIndex + 1
  {
    assert ObjectBytes([]) == [OBJECT_START, OBJECT_END];
    assert s.buf[s.currentIndex - 1 + 1] == OBJECT_END;
    NextTokenPlain(s);
  }

  /** The first attribute of a non-empty object is read, and the loop takes
      over. */
  lemma FirstAttribute(s: ReaderState, d: Dialect, keys: seq<seq<Char>>, attrs: seq<Attribute>,
                       generic: NumberReading.Generic, tmpLength: int) returns (e: Out<seq<int>>)
    requires s.Valid() && 2 <= s.charsLength && Writable(attrs) && NamesReadBack(attrs) && attrs != [] && s.last == OBJECT_START
    requires 1 <= s.currentIndex && StringCodec.BytesAt(s.buf, s.currentIndex - 1, ObjectBytes(attrs))
    requires s.currentIndex - 1 + |ObjectBytes(attrs)| <= s.length
    ensures e.value == Settle(keys, Zeros(|keys|), attrs[..1]) && Ahead(e.st, attrs, 1)
    ensures EndOf(e.st, attrs, 1) == s.currentIndex - 1 + |ObjectBytes(attrs)|
    ensures LoopTakesOver(s, d, keys, generic, tmpLength, e)
  {
    var t := BraceThenQuote(s, attrs);
    e := AttributeThenRest(t.st, d, keys, Zeros(|keys|), attrs, 0, generic, tmpLength);
    FirstUnfold(s, d, keys, generic, tmpLength, t, e);
    SettleFirst(keys, Zeros(|keys|), attrs);
  }

  /** The first attribute settles as one key test. */
  lemma SettleFirst(keys: seq<seq<Char>>, vals: seq<int>, attrs: seq<Attribute>)
    requires |vals| == |keys| && attrs != []
    ensures Settle(keys, vals, attrs[..1]) == Assign(keys, vals, attrs[0].name, attrs[0].value)
  {
    SettleSnoc(keys, vals, attrs, 0);
    assert attrs[..0] == [];
  }

  /** An object written without whitespace, with `last` on its opening
      brace, is read back: each coordinate is what the attributes, applied
      in order through the chain of key tests, leave it at, and the cursor
      stops just after the closing brace. */
  lemma ObjectRoundTrip(s: ReaderState, d: Dialect, keys: seq<seq<Char>>, attrs: seq<Attribute>,
                        generic: NumberReading.Generic, tmpLength: int)
    requires s.Valid() && 2 <= s.charsLength && Writable(attrs) && NamesReadBack(attrs) && s.last == OBJECT_START
    requires 1 <= s.currentIndex && StringCodec.BytesAt(s.buf, s.currentIndex - 1, ObjectBytes(attrs))
    requires s.currentIndex - 1 + |ObjectBytes(attrs)| <= s.length
    ensures var r := Attributes(s, d, keys, generic, tmpLength);
      && r.Ok? && r.value.value == Settle(keys, Zeros(|keys|), attrs)
      && r.value.st.currentIndex == s.currentIndex - 1 + |ObjectBytes(attrs)|
  {
    if attrs == [] {
      EmptyObjectRoundTrip(s, d, keys, generic, tmpLength);
    } else {
      var e := FirstAttribute(s, d, keys, attrs, generic, tmpLength);
      MoreRoundTrip(e.st, d, keys, Zeros(|keys|), attrs, 1, generic, tmpLength);
      assert Hold(());
    }
  }

  /** The rules of the key tests, for any object of `int` attributes: a
      coordinate takes the value of the last attribute whose name equals
      its key ignoring case, attributes with other names are skipped, and a
      coordinate that no attribute names stays 0. */
  lemma ObjectLastValues(s: ReaderState, d: Dialect, keys: seq<seq<Char>>, attrs: seq<Attribute>,
                         generic: NumberReading.Generic, tmpLength: int)
    requires Distinct(keys)
    requires s.Valid() && 2 <= s.charsLength && Writable(attrs) && NamesReadBack(attrs) && s.last == OBJECT_START
    requires 1 <= s.currentIndex && StringCodec.BytesAt(s.buf, s.currentIndex - 1, ObjectBytes(attrs))
    requires s.currentIndex - 1 + |ObjectBytes(attrs)| <= s.length
    ensures var r := Attributes(s, d, keys, generic, tmpLength);
      && r.Ok? && |r.value.value| == |keys|
      && (forall i | 0 <= i < |keys| :: r.value.value[i] == LastValue(attrs, keys[i], 0))
      && r.value.st.currentIndex == s.currentIndex - 1 + |ObjectBytes(attrs)|
  {
    ObjectRoundTrip(s, d, keys, attrs, generic, tmpLength);
    SettleLast(keys, Zeros(|keys|), attrs);
  }

  /** The names of the point and rectangle attributes are ASCII. */
  lemma KeysReadBack(p: Point, r: Rect)
    ensures NamesReadBack(PointAttributes(p)) && NamesReadBack(RectAttributes(r))
  {
    var x, y, w, h := Str("X"), Str("Y"), Str("Width"), Str("Height");
    assert x[0] == 'X' as int && y[0] == 'Y' as int;
    assert forall i | 0 <= i < |w| :: w[i] == "Width"[i] as int;
    assert forall i | 0 <= i < |h| :: h[i] == "Height"[i] as int;
  }

  /** A name equals itself ignoring case. */
  lemma SameName(a: seq<Char>)
    ensures EqualsIgnoreCase(a, a)
  {
  }

  /** `deserializePoint(serializePoint(p))` is `p`, for either converter. */
  lemma PointRoundTrip(s: ReaderState, d: Dialect, p: Point, generic: NumberReading.Generic, tmpLength: int)
    requires s.Valid() && 2 <= s.charsLength && ValidPoint(p) && s.last == OBJECT_START
    requires 1 <= s.currentIndex && StringCodec.BytesAt(s.buf, s.currentIndex - 1, PointJson(p))
    requires s.currentIndex - 1 + |PointJson(p)| <= s.length
    ensures var r := ReadPoint(s, d, generic, tmpLength);
      r.Ok? && r.value.value == p && r.value.st.currentIndex == s.currentIndex - 1 + |PointJson(p)|
  {
    PointAttributesRead(s, d, p, generic, tmpLength);
  }

  /** The attributes of a written point are read back as its coordinates. */
  lemma PointAttributesRead(s: ReaderState, d: Dialect, p: Point, generic: NumberReading.Generic, tmpLength: int)
    requires s.Valid() && 2 <= s.charsLength && ValidPoint(p) && s.last == OBJECT_START
    requires 1 <= s.currentIndex && StringCodec.BytesAt(s.buf, s.currentIndex - 1, PointJson(p))
    requires s.currentIndex - 1 + |PointJson(p)| <= s.length
    ensures var r := Attributes(s, d, POINT_KEYS, generic, tmpLength);
      && r.Ok? && |r.value.value| == 2 && r.value.value[0] == p.x && r.value.value[1] == p.y
      && r.value.st.currentIndex == s.currentIndex - 1 + |PointJson(p)|
  {
    var attrs := PointAttributes(p);
    PointJsonIsObject(p);
    KeysReadBack(p, Rect(0, 0, 0, 0));
    KeysDistinct();
    ObjectLastValues(s, d, POINT_KEYS, attrs, generic, tmpLength);
    PointValues(p);
  }

  /** Reading the point's attributes back gives its coordinates. */
  lemma PointValues(p: Point)
    requires ValidPoint(p)
    ensures LastValue(PointAttributes(p), POINT_KEYS[0], 0) == p.x && LastValue(PointAttributes(p), POINT_KEYS[1], 0) == p.y
  {
    var attrs, x, y := PointAttributes(p), POINT_KEYS[0], POINT_KEYS[1];
    KeysDistinct();
    SameName(x);
    SameName(y);
    assert attrs[..1] == [attrs[0]] && attrs[..1][..0] == [];
    assert LastValue(attrs, x, 0) == p.x;
    assert LastValue(attrs, y, 0) == p.y;
  }

  /** `deserializeRectangle(serializeRectangle(r))` is `r`: the corner, the
      width and the height are read back, and the right and bottom edges
      recomputed from them are the original ones, overflow included. */
  lemma RectRoundTrip(s: ReaderState, r: Rect, generic: NumberReading.Generic, tmpLength: int)
    requires s.Valid() && 2 <= s.charsLength && ValidRect(r) && s.last == OBJECT_START
    requires 1 <= s.currentIndex && StringCodec.BytesAt(s.buf, s.currentIndex - 1, RectJson(r))
    requires s.currentIndex - 1 + |RectJson(r)| <= s.length
    ensures var o := ReadRect(s, generic, tmpLength);
      o.Ok? && o.value.value == r && o.value.st.currentIndex == s.currentIndex - 1 + |RectJson(r)|
  {
    var attrs := RectAttributes(r);
    RectJsonIsObject(r);
    KeysReadBack(Point(0, 0), r);
    KeysDistinct();
    ObjectLastValues(s, Android, RECT_KEYS, attrs, generic, tmpLength);
    RectValues(r);
    RectOfDimensions(r);
  }

  /** Reading the rectangle's attributes back gives its corner, width and
      height. */
  lemma RectValues(r: Rect)
    requires ValidRect(r)
    ensures var attrs, k := RectAttributes(r), RECT_KEYS;
      && LastValue(attrs, k[0], 0) == r.left && LastValue(attrs, k[1], 0) == r.top
      && LastValue(attrs, k[2], 0) == Width(r) && LastValue(attrs, k[3], 0) == Height(r)
  {
    var attrs, k := RectAttributes(r), RECT_KEYS;
    KeysDistinct();
    assert forall j | 0 <= j < 4 :: attrs[j].name == k[j];
    forall i | 0 <= i < 4
      ensures LastValue(attrs, k[i], 0) == attrs[i].value
    {
      SameName(k[i]);
      LastValueAt(attrs, k[i], 0, i);
    }
  }
}

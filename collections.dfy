/** Collections of strings, read with `deserializeCollection` and
    `deserializeNullableCollection` and written with
    `serialize(collection, writer)`. The element codec is a callback in the
    library; here it is the string codec, and a nullable element is `null`
    or a string. */
module Collections {
  import opened Java
  import opened ReaderSpec
  import JsonWriter
  import opened StringCodec

  /** The element reader (`ReadObject` in the library) as a step function:
      defined on every valid state, and never moving the cursor back. */
  ghost predicate IsElementReader<T>(read: ReaderState --> Result<Out<T>>) {
    forall s: ReaderState {:trigger read.requires(s)} {:trigger read(s)} | s.Valid() :: read.requires(s) && (read(s).Ok? ==> Moves(s, read(s).value.st))
  }

  /** One element: with `nullable`, the `null` literal is a null element;
      anything else is read by the element reader. */
  function Element<T>(s: ReaderState, nullable: bool, read: ReaderState --> Result<Out<T>>): (r: Result<Out<Option<T>>>)
    requires s.Valid() && IsElementReader(read)
    ensures r.Ok? ==> Moves(s, r.value.st)
  {
    var n := if nullable then WasNull(s) else Ok(Out(false, s));
    var w :- n;
    if w.value then Ok(Out(None, w.st))
    else
      var p :- read(w.st);
      Ok(Out(Some(p.value), p.st))
  }

  /** The loop after the first element: while the next token is a comma,
      move to the next token and read an element; then the array must
      close. */
  function MoreElements<T>(s: ReaderState, nullable: bool, read: ReaderState --> Result<Out<T>>, acc: seq<Option<T>>): (r: Result<Out<seq<Option<T>>>>)
    requires s.Valid() && IsElementReader(read)
    ensures r.Ok? ==> Moves(s, r.value.st) && r.value.st.last == ARRAY_END
    decreases |s.buf| - s.currentIndex
  {
    var t :- NextToken(s);
    if t.value == COMMA then
      var f :- NextToken(t.st);
      var e :- Element(f.st, nullable, read);
      MoreElements(e.st, nullable, read, acc + [e.value])
    else
      var _ :- CheckArrayEnd(t.st);
      Ok(Out(acc, t.st))
  }

  /** `deserializeCollection` (`nullable` false) and
      `deserializeNullableCollection` (`nullable` true), with `last` on the
      first byte of the first element. */
  function Collection<T>(s: ReaderState, nullable: bool, read: ReaderState --> Result<Out<T>>): (r: Result<Out<seq<Option<T>>>>)
    requires s.Valid() && IsElementReader(read)
    ensures r.Ok? ==> Moves(s, r.value.st) && r.value.st.last == ARRAY_END
  {
    var e :- Element(s, nullable, read);
    MoreElements(e.st, nullable, read, [e.value])
  }

  /** The loop only appends: the elements read before it stay first, in
      order. */
  lemma {:induction false} MoreElementsAppends<T>(s: ReaderState, nullable: bool, read: ReaderState --> Result<Out<T>>, acc: seq<Option<T>>)
    requires s.Valid() && IsElementReader(read)
    ensures var r := MoreElements(s, nullable, read, acc);
      r.Ok? ==> |acc| <= |r.value.value| && r.value.value[..|acc|] == acc
    decreases |s.buf| - s.currentIndex
  {
    var t := NextToken(s);
    if t.Ok? && t.value.value == COMMA {
      var f := NextToken(t.value.st);
      if f.Ok? {
        var e := Element(f.value.st, nullable, read);
        if e.Ok? {
          MoreElementsAppends(e.value.st, nullable, read, acc + [e.value.value]);
          assert (acc + [e.value.value])[..|acc|] == acc;
        }
      }
    }
  }

  /** A collection read without error has at least one element, the first
      one read. */
  lemma CollectionStartsWithElement<T>(s: ReaderState, nullable: bool, read: ReaderState --> Result<Out<T>>)
    requires s.Valid() && IsElementReader(read) && Collection(s, nullable, read).Ok?
    ensures 1 <= |Collection(s, nullable, read).value.value|
    ensures Collection(s, nullable, read).value.value[0] == Element(s, nullable, read).value.value
  {
    var e := Element(s, nullable, read).value;
    MoreElementsAppends(e.st, nullable, read, [e.value]);
  }

  /** `parseString` is an element reader. */
  lemma StringReader()
    ensures IsElementReader(ParseString)
  {
  }

  // ---------------------------------------------------------------------
  // What the reader gets back from the writer

  /** Every element can be written: no string holds a lone surrogate or
      U+FFFE/U+FFFF. */
  predicate Writable(xs: seq<Option<seq<Char>>>) {
    forall i | 0 <= i < |xs| :: JsonWriter.ElementBytes(xs[i]).Ok?
  }

  /** The elements `k` to `n` each preceded by a comma, read from the left. */
  function Separated(xs: seq<Option<seq<Char>>>, k: int, n: int): seq<Byte>
    requires Writable(xs) && 0 <= k <= n <= |xs|
    decreases n - k
  {
    if k == n then [] else [COMMA] + JsonWriter.ElementBytes(xs[k]).value + Separated(xs, k + 1, n)
  }

  lemma {:induction false} SeparatedSnoc(xs: seq<Option<seq<Char>>>, k: int, n: int)
    requires Writable(xs) && 0 <= k <= n < |xs|
    ensures Separated(xs, k, n + 1) == Separated(xs, k, n) + [COMMA] + JsonWriter.ElementBytes(xs[n]).value
    decreases n - k
  {
    if k < n {
      SeparatedSnoc(xs, k + 1, n);
    }
  }

  /** The writer's join, built from the right, is the first element followed
      by the others each after a comma. */
  lemma {:induction false} JoinSplit(xs: seq<Option<seq<Char>>>, n: int)
    requires Writable(xs) && 1 <= n <= |xs|
    ensures JsonWriter.JoinPrefix(xs, n) == Ok(JsonWriter.ElementBytes(xs[0]).value + Separated(xs, 1, n))
    decreases n
  {
    var first := JsonWriter.ElementBytes(xs[0]).value;
    if 1 < n {
      JoinSplit(xs, n - 1);
      SeparatedSnoc(xs, 1, n - 1);
      var e := JsonWriter.ElementBytes(xs[n - 1]).value;
      assert first + Separated(xs, 1, n - 1) + [COMMA] + e == first + (Separated(xs, 1, n - 1) + [COMMA] + e);
    } else {
      assert first + Separated(xs, 1, n) == first;
    }
  }

  /** The writer's join fails exactly when some element cannot be written. */
  lemma JoinOkIffWritable(xs: seq<Option<seq<Char>>>)
    ensures JsonWriter.JoinElements(xs).Ok? <==> Writable(xs)
  {
    if Writable(xs) {
      if xs != [] {
        JoinSplit(xs, |xs|);
      }
    } else {
      var i :| 0 <= i < |xs| && JsonWriter.ElementBytes(xs[i]).Err?;
      assert JsonWriter.JoinPrefix(xs, i + 1).Err?;
      JsonWriter.JoinErrExtends(xs, i + 1, |xs|);
    }
  }

  /** The element reader reads back every string the writer writes that the
      decoder `sup` reads back: from
      just after the opening quote it returns the string and stops just after
      the closing quote. */
  ghost predicate ReadsBackStrings(read: ReaderState --> Result<Out<seq<Char>>>, sup: Supplementary) {
    && IsElementReader(read)
    && forall s: ReaderState, str: seq<Char> {:trigger read(s), JsonWriter.QuotedString(str)} |
        && s.Valid() && 2 <= s.charsLength && s.last == QUOTE && 1 <= s.currentIndex && ReadsBack(sup, str)
        && JsonWriter.QuotedString(str).Ok?
        && BytesAt(s.buf, s.currentIndex - 1, JsonWriter.QuotedString(str).value)
        && s.currentIndex - 1 + |JsonWriter.QuotedString(str).value| <= s.length
        :: && read(s).Ok? && read(s).value.value == str
           && read(s).value.st.currentIndex == s.currentIndex - 1 + |JsonWriter.QuotedString(str).value|
           && 2 <= read(s).value.st.charsLength && read(s).value.st.last == QUOTE
  }

  /** `parseString` reads back every string `writeString` writes. */
  lemma StringsReadBack()
    ensures ReadsBackStrings(ParseString, ExtraUnit)
  {
    forall s: ReaderState, str: seq<Char> |
        && s.Valid() && 2 <= s.charsLength && s.last == QUOTE && 1 <= s.currentIndex && ReadsBack(ExtraUnit, str)
        && JsonWriter.QuotedString(str).Ok?
        && BytesAt(s.buf, s.currentIndex - 1, JsonWriter.QuotedString(str).value)
        && s.currentIndex - 1 + |JsonWriter.QuotedString(str).value| <= s.length
      ensures && ParseString(s).Ok? && ParseString(s).value.value == str
        && ParseString(s).value.st.currentIndex == s.currentIndex - 1 + |JsonWriter.QuotedString(str).value|
        && 2 <= ParseString(s).value.st.charsLength && ParseString(s).value.st.last == QUOTE
    {
      ParseStringRoundTrip(s, str, JsonWriter.QuotedString(str).value, ExtraUnit);
    }
  }

  /** A written element is read back, the cursor stopping just after it on
      its last byte. */
  lemma ElementRoundTrip(s: ReaderState, nullable: bool, read: ReaderState --> Result<Out<seq<Char>>>, sup: Supplementary,
                         x: Option<seq<Char>>, q: seq<Byte>)
    requires s.Valid() && 2 <= s.charsLength
    requires ReadsBackStrings(read, sup) && (nullable || x.Some?) && (x.Some? ==> ReadsBack(sup, x.value))
    requires JsonWriter.ElementBytes(x) == Ok(q) && s.last == q[0]
    requires 1 <= s.currentIndex && BytesAt(s.buf, s.currentIndex - 1, q) && s.currentIndex - 1 + |q| <= s.length
    ensures var r := Element(s, nullable, read);
      && r.Ok? && r.value.value == x && r.value.st.currentIndex == s.currentIndex - 1 + |q|
      && 2 <= r.value.st.charsLength && r.value.st.last == q[|q| - 1]
  {
    match x
    case None => NullElementRoundTrip(s, read, q);
    case Some(str) => StringElementRoundTrip(s, nullable, read, sup, str, q);
  }

  lemma NullElementRoundTrip(s: ReaderState, read: ReaderState --> Result<Out<seq<Char>>>, q: seq<Byte>)
    requires s.Valid() && IsElementReader(read)
    requires JsonWriter.ElementBytes(None) == Ok(q) && s.last == q[0]
    requires 1 <= s.currentIndex && BytesAt(s.buf, s.currentIndex - 1, q) && s.currentIndex - 1 + |q| <= s.length
    ensures Element(s, true, read) == Ok(Out(None, s.(currentIndex := s.currentIndex + 3, last := 'l' as int)))
  {
    var ci := s.currentIndex;
    assert s.buf[ci..ci + 3] == Ascii("ull") by {
      assert s.buf[ci - 1 + 1] == q[1] && s.buf[ci - 1 + 2] == q[2] && s.buf[ci - 1 + 3] == q[3];
    }
  }

  lemma StringElementRoundTrip(s: ReaderState, nullable: bool, read: ReaderState --> Result<Out<seq<Char>>>, sup: Supplementary,
                               str: seq<Char>, q: seq<Byte>)
    requires s.Valid() && 2 <= s.charsLength
    requires ReadsBackStrings(read, sup) && ReadsBack(sup, str)
    requires JsonWriter.ElementBytes(Some(str)) == Ok(q) && s.last == q[0]
    requires 1 <= s.currentIndex && BytesAt(s.buf, s.currentIndex - 1, q) && s.currentIndex - 1 + |q| <= s.length
    ensures Element(s, nullable, read) == Ok(Out(Some(str), read(s).value.st))
    ensures read(s).value.st.currentIndex == s.currentIndex - 1 + |q|
    ensures 2 <= read(s).value.st.charsLength && read(s).value.st.last == QUOTE
  {
    assert q[0] == QUOTE;
    assert JsonWriter.QuotedString(str) == Ok(q);
  }

  /** A comma, an element, and the rest of the collection ahead. */
  lemma NextElementInBuffer(s: ReaderState, xs: seq<Option<seq<Char>>>, k: int)
    requires Writable(xs) && 0 <= k < |xs|
    requires s.Valid() && BytesAt(s.buf, s.currentIndex, Separated(xs, k, |xs|) + [ARRAY_END])
    ensures var q := JsonWriter.ElementBytes(xs[k]).value;
      && s.buf[s.currentIndex] == COMMA && s.buf[s.currentIndex + 1] == q[0]
      && BytesAt(s.buf, s.currentIndex + 1, q)
      && BytesAt(s.buf, s.currentIndex + 1 + |q|, Separated(xs, k + 1, |xs|) + [ARRAY_END])
  {
    var q := JsonWriter.ElementBytes(xs[k]).value;
    var rest := Separated(xs, k + 1, |xs|) + [ARRAY_END];
    assert Separated(xs, k, |xs|) + [ARRAY_END] == [COMMA] + q + rest;
    BytesAtSplit(s.buf, s.currentIndex, [COMMA] + q, rest);
    BytesAtSplit(s.buf, s.currentIndex, [COMMA], q);
    assert s.buf[s.currentIndex + 0] == [COMMA][0];
    assert s.buf[s.currentIndex + 1 + 0] == q[0];
  }

  /** Elements start with a quote or an `n`, neither of them whitespace. */
  lemma ElementStart(x: Option<seq<Char>>)
    requires JsonWriter.ElementBytes(x).Ok?
    ensures var q := JsonWriter.ElementBytes(x).value;
      1 <= |q| && (q[0] == QUOTE || q[0] == 'n' as int) && !IsWhitespace(q[0])
      && (x.Some? ==> q[0] == QUOTE) && (x.None? ==> q[0] == 'n' as int)
  {
  }

  /** A comma and then the first byte `b` of an element, with no whitespace
      between them, are the next two tokens. */
  lemma CommaThenElement(s: ReaderState, b: Byte)
    requires s.Valid() && s.currentIndex + 1 < s.length
    requires s.buf[s.currentIndex] == COMMA && s.buf[s.currentIndex + 1] == b && !IsWhitespace(b)
    ensures var t := s.(currentIndex := s.currentIndex + 1, last := COMMA);
      && NextToken(s) == Ok(Out(COMMA, t))
      && NextToken(t) == Ok(Out(b, t.(currentIndex := s.currentIndex + 2, last := b)))
  {
  }

  /** After a comma the loop reads an element and goes on. */
  lemma MoreUnfold<T>(s: ReaderState, nullable: bool, read: ReaderState --> Result<Out<T>>, acc: seq<Option<T>>, t: ReaderState, f: Out<Byte>)
    requires s.Valid() && t.Valid() && f.st.Valid() && IsElementReader(read)
    requires NextToken(s) == Ok(Out(COMMA, t)) && NextToken(t) == Ok(f) && Element(f.st, nullable, read).Ok?
    ensures var e := Element(f.st, nullable, read).value;
      MoreElements(s, nullable, read, acc) == MoreElements(e.st, nullable, read, acc + [e.value])
  {
  }

  /** On the closing bracket the loop ends with what it has read. */
  lemma MoreEnd<T>(s: ReaderState, nullable: bool, read: ReaderState --> Result<Out<T>>, acc: seq<Option<T>>)
    requires s.Valid() && IsElementReader(read) && s.currentIndex < s.length && s.buf[s.currentIndex] == ARRAY_END
    ensures MoreElements(s, nullable, read, acc) == Ok(Out(acc, s.(currentIndex := s.currentIndex + 1, last := ARRAY_END)))
  {
  }

  lemma TakeSnoc<T>(xs: seq<T>, k: int)
    requires 0 <= k < |xs|
    ensures xs[..k] + [xs[k]] == xs[..k + 1]
  {
  }

  /** The reader stands on the comma before element `k` of `xs`, the
      remaining elements and the closing bracket lying ahead within the
      buffer. */
  ghost predicate Ahead(s: ReaderState, xs: seq<Option<seq<Char>>>, k: int)
    requires Writable(xs) && 0 <= k <= |xs|
  {
    && s.Valid() && 2 <= s.charsLength
    && BytesAt(s.buf, s.currentIndex, Separated(xs, k, |xs|) + [ARRAY_END])
    && s.currentIndex + |Separated(xs, k, |xs|)| + 1 <= s.length
  }

  /** Where the reader stops: just after the closing bracket. */
  function EndOf(s: ReaderState, xs: seq<Option<seq<Char>>>, k: int): int
    requires Writable(xs) && 0 <= k <= |xs|
  {
    s.currentIndex + |Separated(xs, k, |xs|)| + 1
  }

  /** Every element fits the reader: without `nullable` none is null, and
      the decoder `sup` reads back every string. */
  predicate Fits(nullable: bool, sup: Supplementary, xs: seq<Option<seq<Char>>>) {
    && (nullable || forall i | 0 <= i < |xs| :: xs[i].Some?)
    && forall i | 0 <= i < |xs| :: xs[i].Some? ==> ReadsBack(sup, xs[i].value)
  }

  /** One comma-element step of the loop. */
  lemma MoreStep(s: ReaderState, nullable: bool, read: ReaderState --> Result<Out<seq<Char>>>, sup: Supplementary,
                 xs: seq<Option<seq<Char>>>, k: int) returns (e: Out<Option<seq<Char>>>)
    requires Writable(xs) && 0 <= k < |xs| && Fits(nullable, sup, xs)
    requires ReadsBackStrings(read, sup) && Ahead(s, xs, k)
    ensures e.value == xs[k] && Ahead(e.st, xs, k + 1) && EndOf(e.st, xs, k + 1) == EndOf(s, xs, k)
    ensures MoreElements(s, nullable, read, xs[..k]) == MoreElements(e.st, nullable, read, xs[..k + 1])
  {
    var q := JsonWriter.ElementBytes(xs[k]).value;
    NextElementInBuffer(s, xs, k);
    ElementStart(xs[k]);
    CommaThenElement(s, q[0]);
    var t := s.(currentIndex := s.currentIndex + 1, last := COMMA);
    var f := Out(q[0], t.(currentIndex := s.currentIndex + 2, last := q[0]));
    ElementRoundTrip(f.st, nullable, read, sup, xs[k], q);
    MoreUnfold(s, nullable, read, xs[..k], t, f);
    e := Element(f.st, nullable, read).value;
    TakeSnoc(xs, k);
  }

  /** The loop's invariant: the elements from `k` on and the closing bracket
      lie ahead, `r` is what the loop returns from here, and `end` is where
      it stops. Its parts are stated under `Hold(())`, which only
      `ReadingStep` and `CollectionRoundTrip` assert: the induction itself
      passes the invariant on without opening it. */
  ghost predicate Reading(s: ReaderState, nullable: bool, read: ReaderState --> Result<Out<seq<Char>>>, sup: Supplementary,
                          xs: seq<Option<seq<Char>>>, k: int, r: Result<Out<seq<Option<seq<Char>>>>>, end: int) {
    forall u: () {:trigger Hold(u)} :: Hold(u) ==> (
    && Writable(xs) && 1 <= k <= |xs| && Fits(nullable, sup, xs)
    && ReadsBackStrings(read, sup) && Ahead(s, xs, k) && end == EndOf(s, xs, k)
    && r == MoreElements(s, nullable, read, xs[..k]))
  }

  /** The loop returned all of `xs`, stopping at `end`. */
  predicate ReadBack(r: Result<Out<seq<Option<seq<Char>>>>>, xs: seq<Option<seq<Char>>>, end: int) {
    r.Ok? && r.value.value == xs && r.value.st.currentIndex == end
  }

  /** The loop reads the remaining elements and the closing bracket. */
  lemma MoreRoundTrip(s: ReaderState, nullable: bool, read: ReaderState --> Result<Out<seq<Char>>>, sup: Supplementary,
                      xs: seq<Option<seq<Char>>>, k: int, r: Result<Out<seq<Option<seq<Char>>>>>, end: int)
    requires Reading(s, nullable, read, sup, xs, k, r, end) && k <= |xs|
    ensures ReadBack(r, xs, end)
  {
    var t, j := s, k;
    while j < |xs|
      invariant k <= j <= |xs| && Reading(t, nullable, read, sup, xs, j, r, end)
      decreases |xs| - j
    {
      t := ReadingStep(t, nullable, read, sup, xs, j, r, end);
      j := j + 1;
    }
    t := ReadingStep(t, nullable, read, sup, xs, j, r, end);
  }

  /** One turn of the loop: either the bracket closes the collection, or the
      next element is read and the invariant holds one element on. */
  lemma ReadingStep(s: ReaderState, nullable: bool, read: ReaderState --> Result<Out<seq<Char>>>, sup: Supplementary,
                    xs: seq<Option<seq<Char>>>, k: int, r: Result<Out<seq<Option<seq<Char>>>>>, end: int) returns (t: ReaderState)
    requires Reading(s, nullable, read, sup, xs, k, r, end) && k <= |xs|
    ensures k == |xs| ==> ReadBack(r, xs, end)
    ensures k < |xs| ==> Reading(t, nullable, read, sup, xs, k + 1, r, end)
  {
    assert Hold(());
    if k == |xs| {
      MoreRoundTripEnd(s, nullable, read, xs);
      t := s;
    } else {
      var e := MoreStep(s, nullable, read, sup, xs, k);
      t := e.st;
    }
  }

  lemma MoreRoundTripEnd(s: ReaderState, nullable: bool, read: ReaderState --> Result<Out<seq<Char>>>, xs: seq<Option<seq<Char>>>)
    requires Writable(xs) && IsElementReader(read) && Ahead(s, xs, |xs|)
    ensures var r := MoreElements(s, nullable, read, xs[..|xs|]);
      r.Ok? && r.value.value == xs && r.value.st.currentIndex == EndOf(s, xs, |xs|)
  {
    assert Separated(xs, |xs|, |xs|) == [];
    assert s.buf[s.currentIndex + 0] == ([] + [ARRAY_END])[0];
    assert xs[..|xs|] == xs;
    MoreEnd(s, nullable, read, xs);
  }

  /** What `serialize(collection, writer)` writes between the brackets,
      `deserializeNullableCollection` reads back, element for element and in
      order; `deserializeCollection` does too when no element is null. The
      reader starts on the first byte of the first element and stops just
      after the closing bracket. */
  lemma CollectionRoundTrip(s: ReaderState, nullable: bool, read: ReaderState --> Result<Out<seq<Char>>>, sup: Supplementary,
                            xs: seq<Option<seq<Char>>>, body: seq<Byte>)
    requires s.Valid() && 2 <= s.charsLength
    requires xs != [] && Fits(nullable, sup, xs)
    requires ReadsBackStrings(read, sup)
    requires JsonWriter.JoinElements(xs) == Ok(body) && s.last == body[0]
    requires 1 <= s.currentIndex && BytesAt(s.buf, s.currentIndex - 1, body + [ARRAY_END])
    requires s.currentIndex + |body| <= s.length
    ensures var r := Collection(s, nullable, read);
      r.Ok? && r.value.value == xs && r.value.st.currentIndex == s.currentIndex + |body|
  {
    JoinOkIffWritable(xs);
    var e := FirstElement(s, nullable, read, sup, xs, body);
    assert Hold(());
    MoreRoundTrip(e.st, nullable, read, sup, xs, 1, MoreElements(e.st, nullable, read, xs[..1]), EndOf(e.st, xs, 1));
  }

  /** The first element is read back, and the loop takes over. */
  lemma FirstElement(s: ReaderState, nullable: bool, read: ReaderState --> Result<Out<seq<Char>>>, sup: Supplementary,
                     xs: seq<Option<seq<Char>>>, body: seq<Byte>) returns (e: Out<Option<seq<Char>>>)
    requires s.Valid() && 2 <= s.charsLength
    requires xs != [] && Writable(xs) && Fits(nullable, sup, xs)
    requires ReadsBackStrings(read, sup)
    requires JsonWriter.JoinElements(xs) == Ok(body) && s.last == body[0]
    requires 1 <= s.currentIndex && BytesAt(s.buf, s.currentIndex - 1, body + [ARRAY_END])
    requires s.currentIndex + |body| <= s.length
    ensures Ahead(e.st, xs, 1) && EndOf(e.st, xs, 1) == s.currentIndex + |body|
    ensures Collection(s, nullable, read) == MoreElements(e.st, nullable, read, xs[..1])
  {
    var q := FirstLayout(s.buf, s.currentIndex - 1, xs, body);
    ElementRoundTrip(s, nullable, read, sup, xs[0], q);
    e := Element(s, nullable, read).value;
    assert xs[..1] == [xs[0]];
  }

  /** The joined elements are the first element's bytes and then the rest,
      each after a comma. */
  lemma FirstLayout(buf: seq<Byte>, at: int, xs: seq<Option<seq<Char>>>, body: seq<Byte>) returns (q: seq<Byte>)
    requires xs != [] && Writable(xs) && JsonWriter.JoinElements(xs) == Ok(body)
    requires 0 <= at && BytesAt(buf, at, body + [ARRAY_END])
    ensures JsonWriter.ElementBytes(xs[0]) == Ok(q) && body[0] == q[0] && |body| == |q| + |Separated(xs, 1, |xs|)|
    ensures BytesAt(buf, at, q) && BytesAt(buf, at + |q|, Separated(xs, 1, |xs|) + [ARRAY_END])
  {
    JoinSplit(xs, |xs|);
    q := JsonWriter.ElementBytes(xs[0]).value;
    var rest := Separated(xs, 1, |xs|) + [ARRAY_END];
    assert body + [ARRAY_END] == q + rest;
    ElementStart(xs[0]);
    BytesAtSplit(buf, at, q, rest);
  }

  /** The string collections `serialize(collection, writer)` writes,
      `deserializeNullableCollection` with `parseString` reads back, when no
      string holds a surrogate. */
  lemma StringCollectionRoundTrip(s: ReaderState, nullable: bool, xs: seq<Option<seq<Char>>>, body: seq<Byte>)
    requires s.Valid() && 2 <= s.charsLength
    requires xs != [] && Fits(nullable, ExtraUnit, xs)
    requires JsonWriter.JoinElements(xs) == Ok(body) && s.last == body[0]
    requires 1 <= s.currentIndex && BytesAt(s.buf, s.currentIndex - 1, body + [ARRAY_END])
    requires s.currentIndex + |body| <= s.length
    ensures var r := Collection(s, nullable, ParseString);
      r.Ok? && r.value.value == xs && r.value.st.currentIndex == s.currentIndex + |body|
  {
    StringsReadBack();
    CollectionRoundTrip(s, nullable, ParseString, ExtraUnit, xs, body);
  }
}

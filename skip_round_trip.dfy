/** What the writer writes, the reader skips whole: `skip()` positioned on
    the opening quote of a string that `writeString` produced stops right
    after the closing quote and returns the token that follows, whatever
    escapes and multi-byte characters the string holds. */
module SkipRoundTrip {
  import opened Java
  import opened ReaderSpec
  import JsonWriter
  import StringCodec

  /** The shape of one unit of the escaped form as the `skipString()` loop
      sees it: it does not start with a quote; an escape is at least two
      bytes; and after the escape's second byte (or after the first byte of
      a unit without escape) there is neither a quote nor a backslash. */
  predicate SkipsAsUnit(u: seq<Byte>) {
    && 1 <= |u| && u[0] != QUOTE
    && (u[0] == BACKSLASH ==> 2 <= |u|)
    && forall k | (if u[0] == BACKSLASH then 2 else 1) <= k < |u| :: u[k] != QUOTE && u[k] != BACKSLASH
  }

  /** The bytes of a UTF-8 sequence are all of 0x80 and above, so negative
      as Java bytes. */
  lemma Utf8Negative(cp: int)
    requires 0x80 <= cp < 0x110000
    ensures forall k | 0 <= k < |JsonWriter.Utf8Bytes(cp)| :: JsonWriter.Utf8Bytes(cp)[k] < 0
  {
  }

  /** Every unit `writeQuotedString` emits has the shape `skipString()`
      steps over. */
  lemma UnitSkips(str: seq<Char>, i: int)
    requires 0 <= i < |str| && JsonWriter.EscapeAt(str, i).Ok?
    ensures SkipsAsUnit(JsonWriter.EscapeAt(str, i).value.bytes)
  {
    if 0x7F <= str[i] {
      var (cp, n) := JsonWriter.CodePointAt(str, i);
      if 0x80 <= cp {
        Utf8Negative(cp);
      }
    }
  }

  /** Bytes that are neither a quote nor a backslash pass through the loop
      one `read()` at a time, outside any escape. */
  lemma {:induction false} PlainRun(s: ReaderState, n: int)
    requires s.Valid() && 1 <= s.currentIndex && 0 <= n && s.currentIndex - 1 + n < s.length
    requires s.last == s.buf[s.currentIndex - 1]
    requires forall j | s.currentIndex - 1 <= j < s.currentIndex - 1 + n :: s.buf[j] != QUOTE && s.buf[j] != BACKSLASH
    ensures var t := s.(currentIndex := s.currentIndex + n, last := s.buf[s.currentIndex - 1 + n]);
      SkipStringRest(s, s.last, false) == SkipStringRest(t, t.last, false)
    decreases n
  {
    if 0 < n {
      assert s.buf[s.currentIndex - 1] != QUOTE;
      var o := Read(s).value;
      PlainRun(o.st, n - 1);
    }
  }

  /** One unit of the escaped form: the loop ends up on the byte after it,
      outside any escape. */
  lemma SkipUnit(s: ReaderState, u: seq<Byte>)
    requires s.Valid() && 1 <= s.currentIndex && SkipsAsUnit(u)
    requires StringCodec.BytesAt(s.buf, s.currentIndex - 1, u) && s.currentIndex - 1 + |u| < s.length
    requires s.last == s.buf[s.currentIndex - 1]
    ensures var t := s.(currentIndex := s.currentIndex - 1 + |u| + 1, last := s.buf[s.currentIndex - 1 + |u|]);
      SkipStringRest(s, s.last, false) == SkipStringRest(t, t.last, false)
  {
    var ci := s.currentIndex;
    assert s.buf[ci - 1 + 0] == u[0];
    if u[0] == BACKSLASH {
      var s2 := s.(currentIndex := ci + 2, last := s.buf[ci + 1]);
      assert SkipStringRest(s, s.last, false) == SkipStringRest(s2, s2.last, false);
      forall j | ci + 1 <= j < ci + |u| - 1
        ensures s.buf[j] != QUOTE && s.buf[j] != BACKSLASH
      {
        assert s.buf[ci - 1 + (j - ci + 1)] == u[j - ci + 1];
      }
      PlainRun(s2, |u| - 2);
    } else {
      forall j | ci - 1 <= j < ci - 1 + |u|
        ensures s.buf[j] != QUOTE && s.buf[j] != BACKSLASH
      {
        assert s.buf[ci - 1 + (j - ci + 1)] == u[j - ci + 1];
      }
      PlainRun(s, |u|);
    }
  }

  /** Bytes laid out as two pieces: each piece lies where it should. */
  lemma BytesAtSplit(buf: seq<Byte>, at: int, a: seq<Byte>, b: seq<Byte>)
    requires StringCodec.BytesAt(buf, at, a + b)
    ensures StringCodec.BytesAt(buf, at, a) && StringCodec.BytesAt(buf, at + |a|, b)
  {
    forall k | 0 <= k < |a|
      ensures buf[at + k] == a[k]
    {
      assert buf[at + k] == (a + b)[k];
    }
    forall k | 0 <= k < |b|
      ensures buf[at + |a| + k] == b[k]
    {
      assert buf[at + (|a| + k)] == (a + b)[|a| + k];
    }
  }

  lemma Regrouped(a: seq<Byte>, b: seq<Byte>, c: seq<Byte>)
    ensures (a + b) + c == a + (b + c)
  {
  }

  /** `e` is the escaped form of `str[i..]`, stated under `Hold(())` so
      that the escaping does not open where the fact is only passed on. */
  ghost predicate EscapesTo(str: seq<Char>, i: int, e: seq<Byte>)
    requires 0 <= i <= |str|
  {
    forall u: () {:trigger Hold(u)} :: Hold(u) ==> JsonWriter.EscapeFrom(str, i) == Ok(e)
  }

  lemma EscapesToNothing(str: seq<Char>, e: seq<Byte>)
    requires EscapesTo(str, |str|, e)
    ensures e == []
  {
    assert Hold(());
  }

  /** The escaped form of `str[i..]` with the closing quote is its first
      unit, of the shape the loop steps over, then the rest. */
  lemma FirstUnit(str: seq<Char>, i: int, e: seq<Byte>) returns (u: seq<Byte>, rest: seq<Byte>, w: int)
    requires 0 <= i < |str| && EscapesTo(str, i, e)
    ensures 1 <= w && i + w <= |str| && EscapesTo(str, i + w, rest)
    ensures SkipsAsUnit(u)
    ensures e + [QUOTE] == u + (rest + [QUOTE])
  {
    assert Hold(());
    var unit := JsonWriter.EscapeAt(str, i).value;
    u, w := unit.bytes, unit.width;
    rest := JsonWriter.EscapeFrom(str, i + w).value;
    assert JsonWriter.EscapeFrom(str, i).value == u + rest;
    Regrouped(u, rest, [QUOTE]);
    UnitSkips(str, i);
  }

  /** The first unit of the escaped form of `str[i..]`: the loop steps over
      it and is left on the first byte of the rest, which lies after it. */
  lemma EscapedStep(s: ReaderState, str: seq<Char>, i: int, e: seq<Byte>) returns (t: ReaderState, rest: seq<Byte>, w: int)
    requires s.Valid() && 0 <= i < |str| && EscapesTo(str, i, e)
    requires 1 <= s.currentIndex && s.last == s.buf[s.currentIndex - 1]
    requires StringCodec.BytesAt(s.buf, s.currentIndex - 1, e + [QUOTE]) && s.currentIndex - 1 + |e| < s.length
    ensures 1 <= w && i + w <= |str| && EscapesTo(str, i + w, rest)
    ensures t.Valid() && 1 <= t.currentIndex && t.last == t.buf[t.currentIndex - 1]
    ensures t == s.(currentIndex := t.currentIndex, last := t.last)
    ensures s.currentIndex < t.currentIndex && t.currentIndex + |rest| == s.currentIndex + |e|
    ensures StringCodec.BytesAt(t.buf, t.currentIndex - 1, rest + [QUOTE])
    ensures LoopSame(s, t)
  {
    var u;
    u, rest, w := FirstUnit(str, i, e);
    BytesAtSplit(s.buf, s.currentIndex - 1, u, rest + [QUOTE]);
    SkipUnit(s, u);
    t := s.(currentIndex := s.currentIndex - 1 + |u| + 1, last := s.buf[s.currentIndex - 1 + |u|]);
  }

  /** From `s` and from `t`, the `skipString()` loop ends the same way.
      Stated under `Hold(())`, so that the loop does not open where the
      fact is only passed on. */
  ghost predicate LoopSame(s: ReaderState, t: ReaderState)
    requires s.Valid() && t.Valid()
  {
    forall u: () {:trigger Hold(u)} :: Hold(u) ==> SkipStringRest(s, s.last, false) == SkipStringRest(t, t.last, false)
  }

  /** From `s`, the `skipString()` loop stops on a closing quote just before
      `end` and returns the token after it. */
  ghost predicate LoopEndsAt(s: ReaderState, end: int)
    requires s.Valid() && s.currentIndex <= end <= |s.buf|
  {
    forall u: () {:trigger Hold(u)} :: Hold(u) ==>
      SkipStringRest(s, s.last, false) == NextToken(s.(currentIndex := end, last := QUOTE))
  }

  lemma LoopThen(s: ReaderState, t: ReaderState, end: int)
    requires s.Valid() && t.Valid() && t == s.(currentIndex := t.currentIndex, last := t.last)
    requires s.currentIndex <= t.currentIndex <= end <= |s.buf|
    requires LoopSame(s, t) && LoopEndsAt(t, end)
    ensures LoopEndsAt(s, end)
  {
    assert Hold(());
  }

  /** On the closing quote, outside an escape, the loop ends and the next
      token is read. */
  lemma AtClosingQuote(s: ReaderState)
    requires s.Valid() && s.last == QUOTE
    ensures LoopEndsAt(s, s.currentIndex)
  {
    assert Hold(());
  }

  /** Nothing left to escape: the loop is on the closing quote. */
  lemma EscapedEnd(s: ReaderState, str: seq<Char>, e: seq<Byte>)
    requires s.Valid() && EscapesTo(str, |str|, e)
    requires 1 <= s.currentIndex && s.last == s.buf[s.currentIndex - 1]
    requires StringCodec.BytesAt(s.buf, s.currentIndex - 1, e + [QUOTE])
    ensures s.currentIndex + |e| <= |s.buf| && LoopEndsAt(s, s.currentIndex + |e|)
  {
    EscapesToNothing(str, e);
    assert s.buf[s.currentIndex - 1 + 0] == (e + [QUOTE])[0];
    AtClosingQuote(s);
  }

  /** The escaped form `e` of `str[i..]` followed by the closing quote: the
      loop, entered on its first byte, stops on the closing quote. */
  lemma {:induction false} SkipEscaped(s: ReaderState, str: seq<Char>, i: int, e: seq<Byte>, end: int)
    requires s.Valid() && 0 <= i <= |str| && EscapesTo(str, i, e)
    requires 1 <= s.currentIndex && s.last == s.buf[s.currentIndex - 1]
    requires StringCodec.BytesAt(s.buf, s.currentIndex - 1, e + [QUOTE]) && s.currentIndex - 1 + |e| < s.length
    requires end == s.currentIndex + |e|
    ensures end <= |s.buf| && LoopEndsAt(s, end)
    decreases |str| - i
  {
    if i == |str| {
      EscapedEnd(s, str, e);
    } else {
      var t, rest, w := EscapedStep(s, str, i, e);
      SkipEscaped(t, str, i + w, rest, end);
      LoopThen(s, t, end);
    }
  }

  /** On a quote, `skip()` is `skipString()`. */
  lemma SkipOnQuote(s: ReaderState)
    requires s.Valid() && s.last == QUOTE
    ensures Skip(s) == SkipString(s)
  {
  }

  /** `skipString()` entered just after the opening quote of what
      `writeString` wrote: it returns the token after the closing quote. */
  lemma SkipStringOver(s: ReaderState, str: seq<Char>, e: seq<Byte>)
    requires s.Valid() && JsonWriter.Escaped(str) == Ok(e)
    requires 1 <= s.currentIndex && StringCodec.BytesAt(s.buf, s.currentIndex, e + [QUOTE])
    requires s.currentIndex + |e| < s.length
    ensures SkipString(s) == NextToken(s.(currentIndex := s.currentIndex + |e| + 1, last := QUOTE))
  {
    var o := Read(s).value;
    assert EscapesTo(str, 0, e) by { assert JsonWriter.Escaped(str) == JsonWriter.EscapeFrom(str, 0); }
    SkipEscaped(o.st, str, 0, e, o.st.currentIndex + |e|);
    assert Hold(());
  }

  /** `skip()` on the opening quote of what `writeString` wrote for `str`
      returns the token after the closing quote, read from just past it. */
  lemma SkipWrittenString(s: ReaderState, str: seq<Char>, q: seq<Byte>)
    requires s.Valid() && s.last == QUOTE && JsonWriter.QuotedString(str) == Ok(q)
    requires 1 <= s.currentIndex && StringCodec.BytesAt(s.buf, s.currentIndex - 1, q)
    requires s.currentIndex - 1 + |q| <= s.length
    ensures Skip(s) == NextToken(s.(currentIndex := s.currentIndex - 1 + |q|, last := QUOTE))
  {
    var e := JsonWriter.Escaped(str).value;
    Regrouped([QUOTE], e, [QUOTE]);
    BytesAtSplit(s.buf, s.currentIndex - 1, [QUOTE], e + [QUOTE]);
    SkipStringOver(s, str, e);
    SkipOnQuote(s);
  }
}

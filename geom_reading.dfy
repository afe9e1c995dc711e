/** `deserializePoint` and `deserializeRectangle` of the geometry
    converters as step functions over the reader's state. The two
    converters read a point the same way and differ only in the messages of
    their errors: `JavaGeomConverter` builds them with `newParseError`,
    `AndroidGeomConverter` with `new IOException`. Property names are read
    with `readString()` and values with `deserializeInt`. */
module GeomReading {
  import opened Java
  import opened ReaderSpec
  import opened Geometry
  import NumberReading

  /** Which converter reads: AWT's (`JavaGeomConverter`) or Android's. */
  datatype Dialect = Awt | Android

  function ObjectStartError(d: Dialect): Error {
    IOError(if d == Awt then "Expecting '{' for object start" else "Expecting '{'")
  }

  function ColonError(d: Dialect): Error {
    IOError(if d == Awt then "Expecting ':' after attribute name" else "Expecting ':'")
  }

  function ObjectEndError(d: Dialect): Error {
    IOError(if d == Awt then "Expecting '}' for object end" else "Expecting '}'")
  }

  /** Every coordinate is an `int`. */
  predicate AllInts(vals: seq<int>) {
    forall i | 0 <= i < |vals| :: IsInt(vals[i])
  }

  /** One attribute, from its opening quote: the name, a `:` as the next
      token, then the value at the token after it. The first key that
      matches the name takes the value. */
  function ReadAttribute(s: ReaderState, d: Dialect, keys: seq<seq<Char>>, vals: seq<int>,
                         generic: NumberReading.Generic, tmpLength: int): (r: Result<Out<seq<int>>>)
    requires s.Valid() && |vals| == |keys|
    ensures r.Ok? ==> Moves(s, r.value.st) && |r.value.value| == |keys|
    ensures r.Ok? && AllInts(vals) ==> AllInts(r.value.value)
  {
    var name :- ParseString(s);
    var colon :- NextToken(name.st);
    if colon.value != COLON then Err(ColonError(d))
    else
      var first :- NextToken(colon.st);
      var value :- NumberReading.ReadIntegral(first.st, false, generic, tmpLength);
      var r := Assign(keys, vals, name.value, value.value);
      AssignKeepsInts(keys, vals, name.value, value.value);
      Ok(Out(r, value.st))
  }

  /** `Assign` stores an `int` or keeps one. */
  lemma {:induction false} AssignKeepsInts(keys: seq<seq<Char>>, vals: seq<int>, name: seq<Char>, value: int)
    requires |vals| == |keys| && IsInt(value)
    ensures AllInts(vals) ==> AllInts(Assign(keys, vals, name, value))
    decreases |keys|
  {
    if keys != [] && !EqualsIgnoreCase(keys[0], name) {
      AssignKeepsInts(keys[1..], vals[1..], name, value);
    }
  }

  /** The loop: while the next token is a comma, move to the token after it
      and read an attribute; then the object must close. */
  function MoreAttributes(s: ReaderState, d: Dialect, keys: seq<seq<Char>>, vals: seq<int>,
                          generic: NumberReading.Generic, tmpLength: int): (r: Result<Out<seq<int>>>)
    requires s.Valid() && |vals| == |keys|
    ensures r.Ok? ==> Moves(s, r.value.st) && |r.value.value| == |keys| && r.value.st.last == OBJECT_END
    ensures r.Ok? && AllInts(vals) ==> AllInts(r.value.value)
    decreases |s.buf| - s.currentIndex
  {
    var t :- NextToken(s);
    if t.value == COMMA then
      var f :- NextToken(t.st);
      var a :- ReadAttribute(f.st, d, keys, vals, generic, tmpLength);
      MoreAttributes(a.st, d, keys, a.value, generic, tmpLength)
    else if t.value != OBJECT_END then Err(ObjectEndError(d))
    else Ok(Out(vals, t.st))
  }

  /** An object of `int` attributes, with `last` on its opening brace: the
      coordinates the keys name, each 0 unless an attribute sets it. */
  function Attributes(s: ReaderState, d: Dialect, keys: seq<seq<Char>>,
                      generic: NumberReading.Generic, tmpLength: int): (r: Result<Out<seq<int>>>)
    requires s.Valid()
    ensures s.last != OBJECT_START ==> r == Err(ObjectStartError(d))
    ensures s.last == OBJECT_START && NextToken(s).Ok? && NextToken(s).value.value == OBJECT_END
      ==> r == Ok(Out(Zeros(|keys|), NextToken(s).value.st))
    ensures r.Ok? ==> Moves(s, r.value.st) && r.value.st.last == OBJECT_END
    ensures r.Ok? ==> |r.value.value| == |keys| && AllInts(r.value.value)
  {
    if s.last != OBJECT_START then Err(ObjectStartError(d))
    else
      var t :- NextToken(s);
      if t.value == OBJECT_END then Ok(Out(Zeros(|keys|), t.st))
      else
        var a :- ReadAttribute(t.st, d, keys, Zeros(|keys|), generic, tmpLength);
        MoreAttributes(a.st, d, keys, a.value, generic, tmpLength)
  }

  /** `deserializePoint(reader)`: `{}` is the origin. */
  function ReadPoint(s: ReaderState, d: Dialect, generic: NumberReading.Generic, tmpLength: int): (r: Result<Out<Point>>)
    requires s.Valid()
    ensures s.last != OBJECT_START ==> r == Err(ObjectStartError(d))
    ensures s.last == OBJECT_START && NextToken(s).Ok? && NextToken(s).value.value == OBJECT_END
      ==> r == Ok(Out(Point(0, 0), NextToken(s).value.st))
    ensures r.Ok? ==> Moves(s, r.value.st) && r.value.st.last == OBJECT_END && ValidPoint(r.value.value)
  {
    var a :- Attributes(s, d, POINT_KEYS, generic, tmpLength);
    Ok(Out(Point(a.value[0], a.value[1]), a.st))
  }

  /** `deserializeRectangle(reader)` of `AndroidGeomConverter`: the corner,
      the width and the height, as `new Rect(x, y, x + width, y + height)`;
      `{}` is the empty rectangle at the origin. */
  function ReadRect(s: ReaderState, generic: NumberReading.Generic, tmpLength: int): (r: Result<Out<Rect>>)
    requires s.Valid()
    ensures s.last != OBJECT_START ==> r == Err(ObjectStartError(Android))
    ensures s.last == OBJECT_START && NextToken(s).Ok? && NextToken(s).value.value == OBJECT_END
      ==> r == Ok(Out(Rect(0, 0, 0, 0), NextToken(s).value.st))
    ensures r.Ok? ==> Moves(s, r.value.st) && r.value.st.last == OBJECT_END && ValidRect(r.value.value)
  {
    var a :- Attributes(s, Android, RECT_KEYS, generic, tmpLength);
    var v := a.value;
    Ok(Out(RectOf(v[0], v[1], v[2], v[3]), a.st))
  }
}

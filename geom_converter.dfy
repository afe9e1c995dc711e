/** The integer geometry converters of `JavaGeomConverter` and
    `AndroidGeomConverter` as methods on the writer and the reader: the
    serializers append the fixed attribute layout, and the deserializers
    loop over the attributes of an object, proved to agree with the step
    functions of `GeomReading`. */
module GeomConverter {
  import opened Java
  import opened Geometry
  import opened GeomReading
  import ReaderSpec
  import JsonReader
  import JsonWriter
  import NumberConverter
  import NumberReading
  import opened DecimalText

  /** `writeAscii(lead)` followed by `NumberConverter.serialize(value, sw)`:
      one attribute of the fixed layout. */
  method WriteAttribute(lead: seq<Byte>, value: int, sw: JsonWriter.JsonWriter)
    requires IsInt(value) && sw.Valid()
    modifies sw, sw.result
    ensures sw.Valid() && (sw.result == old(sw.result) || fresh(sw.result))
    ensures sw.result.Length >= 11
    ensures sw.Contents() == old(sw.Contents()) + (lead + Decimal(value))
  {
    ghost var text := sw.Contents();
    sw.WriteAscii(lead);
    NumberConverter.SerializeInt(value, sw);
    Joined(text, lead, Decimal(value));
  }

  /** Appending two pieces one by one appends their concatenation. */
  lemma Joined(text: seq<Byte>, a: seq<Byte>, b: seq<Byte>)
    ensures text + a + b == text + (a + b)
  {
  }

  /** `writeByte(OBJECT_END)`, which always has room after an attribute. */
  method CloseObject(sw: JsonWriter.JsonWriter)
    requires sw.Valid() && sw.result.Length >= 11
    modifies sw, sw.result
    ensures sw.Valid() && (sw.result == old(sw.result) || fresh(sw.result))
    ensures sw.Contents() == old(sw.Contents()) + [OBJECT_END]
  {
    JsonWriter.RoomyFits(sw.result.Length, sw.position);
    var end := sw.WriteByte(OBJECT_END);
  }

  /** Appending three pieces one by one appends their concatenation. */
  lemma Appended3(text: seq<Byte>, a: seq<Byte>, b: seq<Byte>, c: seq<Byte>)
    ensures text + a + b + c == text + (a + b + c)
  {
  }

  /** Appending five pieces one by one appends their concatenation. */
  lemma Appended5(text: seq<Byte>, a: seq<Byte>, b: seq<Byte>, c: seq<Byte>, d: seq<Byte>, e: seq<Byte>)
    ensures text + a + b + c + d + e == text + (a + b + c + d + e)
  {
  }

  /** `serializePoint(value, sw)`: `{"X":x,"Y":y}`. */
  method SerializePoint(value: Point, sw: JsonWriter.JsonWriter)
    requires ValidPoint(value) && sw.Valid()
    modifies sw, sw.result
    ensures sw.Valid() && (sw.result == old(sw.result) || fresh(sw.result))
    ensures sw.Contents() == old(sw.Contents()) + PointJson(value)
  {
    ghost var text := sw.Contents();
    WriteAttribute(OPEN_X, value.x, sw);
    WriteAttribute(COMMA_Y, value.y, sw);
    CloseObject(sw);
    Appended3(text, OPEN_X + Decimal(value.x), COMMA_Y + Decimal(value.y), [OBJECT_END]);
  }

  /** `serializeRectangle(value, sw)` of `AndroidGeomConverter`: the corner,
      then `width()` and `height()`. */
  method SerializeRectangle(value: Rect, sw: JsonWriter.JsonWriter)
    requires ValidRect(value) && sw.Valid()
    modifies sw, sw.result
    ensures sw.Valid() && (sw.result == old(sw.result) || fresh(sw.result))
    ensures sw.Contents() == old(sw.Contents()) + RectJson(value)
  {
    ghost var text := sw.Contents();
    WriteAttribute(OPEN_X, value.left, sw);
    WriteAttribute(COMMA_Y, value.top, sw);
    WriteAttribute(COMMA_WIDTH, Width(value), sw);
    WriteAttribute(COMMA_HEIGHT, Height(value), sw);
    CloseObject(sw);
    Appended5(text, OPEN_X + Decimal(value.left), COMMA_Y + Decimal(value.top),
              COMMA_WIDTH + Decimal(Width(value)), COMMA_HEIGHT + Decimal(Height(value)), [OBJECT_END]);
  }

  /** One attribute, from its opening quote: `StringConverter.deserialize`,
      the colon, `deserializeInt`, then the chain of `equalsIgnoreCase`
      tests. The converters repeat this block before and inside their loop. */
  method ReadAttributeInto(reader: JsonReader.JsonReader, d: Dialect, keys: seq<seq<Char>>, vals: seq<int>,
                           generic: NumberReading.Generic, tmpLength: int) returns (r: Result<seq<int>>)
    requires reader.Valid() && |vals| == |keys|
    modifies reader
    ensures reader.Valid() && reader.Agrees(r, ReadAttribute(old(reader.State()), d, keys, vals, generic, tmpLength))
  {
    var name :- reader.ParseString();
    var nextToken :- reader.GetNextToken();
    if nextToken != COLON {
      return Err(ColonError(d));
    }
    var first :- reader.GetNextToken();
    var value :- NumberReading.DeserializeIntegral(reader, false, generic, tmpLength);
    return Ok(Assign(keys, vals, name, value));
  }

  /** The body shared by `deserializePoint` and `deserializeRectangle`: the
      values of the keys, each 0 until an attribute sets it. */
  method ReadAttributes(reader: JsonReader.JsonReader, d: Dialect, keys: seq<seq<Char>>,
                        generic: NumberReading.Generic, tmpLength: int) returns (r: Result<seq<int>>)
    requires reader.Valid()
    modifies reader
    ensures reader.Valid() && reader.Agrees(r, Attributes(old(reader.State()), d, keys, generic, tmpLength))
  {
    if reader.last != OBJECT_START {
      return Err(ObjectStartError(d));
    }
    var nextToken :- reader.GetNextToken();
    if nextToken == OBJECT_END {
      return Ok(Zeros(|keys|));
    }
    var vals :- ReadAttributeInto(reader, d, keys, Zeros(|keys|), generic, tmpLength);
    ghost var prev := reader.State();
    nextToken :- reader.GetNextToken();
    while nextToken == COMMA
      invariant reader.Valid() && prev.Valid() && prev.buf == reader.buffer[..] && |vals| == |keys|
      invariant ReaderSpec.NextToken(prev) == Ok(ReaderSpec.Out(nextToken, reader.State()))
      invariant Attributes(old(reader.State()), d, keys, generic, tmpLength)
                == MoreAttributes(prev, d, keys, vals, generic, tmpLength)
      decreases reader.buffer.Length - reader.currentIndex
    {
      var t :- reader.GetNextToken();
      vals :- ReadAttributeInto(reader, d, keys, vals, generic, tmpLength);
      prev := reader.State();
      nextToken :- reader.GetNextToken();
    }
    if nextToken != OBJECT_END {
      return Err(ObjectEndError(d));
    }
    return Ok(vals);
  }

  /** `deserializePoint(reader)` of either converter. */
  method DeserializePoint(reader: JsonReader.JsonReader, d: Dialect,
                          generic: NumberReading.Generic, tmpLength: int) returns (r: Result<Point>)
    requires reader.Valid()
    modifies reader
    ensures reader.Valid() && reader.Agrees(r, ReadPoint(old(reader.State()), d, generic, tmpLength))
  {
    var v :- ReadAttributes(reader, d, POINT_KEYS, generic, tmpLength);
    return Ok(Point(v[0], v[1]));
  }

  /** `deserializeRectangle(reader)` of `AndroidGeomConverter`. */
  method DeserializeRectangle(reader: JsonReader.JsonReader,
                              generic: NumberReading.Generic, tmpLength: int) returns (r: Result<Rect>)
    requires reader.Valid()
    modifies reader
    ensures reader.Valid() && reader.Agrees(r, ReadRect(old(reader.State()), generic, tmpLength))
  {
    var v :- ReadAttributes(reader, Android, RECT_KEYS, generic, tmpLength);
    return Ok(RectOf(v[0], v[1], v[2], v[3]));
  }
}

# dsl-json core in Dafny

A model of the byte-level core of dsl-json, a JSON codec that reads and
writes UTF-8 bytes directly.

- `java.dfy` (modules `Java`, `Fnv`): Java's signed bytes, 16-bit chars,
  32/64-bit wrap-around, the exceptions the library throws (as a `Result`),
  and the 32-bit FNV-1a name hash.
- `reader_spec.dfy` (module `ReaderSpec`): the operations of `JsonReader`
  that the converters use (tokens, whitespace, strings, name hashes,
  skipping, `readSimpleQuote`, the collection readers) as step functions over the reader's state (`buffer`, `length`,
  `currentIndex`, `last`, `tokenStart`, `nameEnd`, the remembered hash and
  the capacity of the `chars` buffer).
- `json_reader.dfy` (module `JsonReader`): the reader object itself. Its
  methods update the cursor fields in place, with the loops of the source.
  Each method is proved to leave exactly the state, and return exactly the
  value, that its step function gives.
- `json_writer.dfy` (module `JsonWriter`): the growable output buffer as a
  class over an `array`, and the escaping rules of section 7 of RFC 8259 and
  the UTF-8 encoding of section 3 of RFC 3629 as functions. The writing
  methods are proved to append exactly those bytes.
- `string_codec.dfy` (module `StringCodec`): the round trip of strings.
  Whatever `writeString` writes for a string without surrogate code units,
  `parseString` reads back, through either the fast copying loop or the
  slow decoding loop. A supplementary character comes back from the
  4-byte branch as its surrogate pair followed by a stray unit, the low 16
  bits of its code point; with that branch corrected to store the pair
  alone, every string the writer accepts reads back.
- `skip_round_trip.dfy` (module `SkipRoundTrip`): `skip()` over a string
  the writer wrote stops right after its closing quote.
- `collections.dfy` (module `Collections`): `deserializeCollection` and
  `deserializeNullableCollection` as step functions over an element reader.
  The round trip shows that what `serialize(collection, writer)` writes for
  strings is read back element for element.
- `decimal_text.dfy` (module `DecimalText`): decimal digits as values
  (the shortest form, zero-padded forms, the value of a run of digits) and
  `Wrote`, which says which bytes of an array a store sequence changed.
- `number_converter.dfy` (module `NumberConverter`): the writing half of
  the library's `NumberConverter`: the three-digit `DIGITS` table,
  `write2`/`write3`/`write4`, `serialize` of `int`, `long` and their arrays
  into the writer's array, each proved to write the shortest decimal form.
- `number_reading.dfy` (module `NumberReading`): the reading half, as step
  functions over the reader's state and as methods over the reader object
  with the source's loops: `deserializeInt`, `deserializeLong`,
  `deserializeDecimal`, `deserializeNumber` and the `int[]`/`long[]`
  readers. The JDK's `BigDecimal` parser is a parameter.
- `number_properties.dfy` (module `NumberProperties`): what those readers
  compute: exact accumulation while the value fits, the round trip of
  `serialize(int)`/`serialize(long)`, plain and exponent decimals, and the
  missed overflow of the `int` loop.
- `decimal_codec.dfy` (module `DecimalCodec`): `BigDecimal.toString()` and
  the round trip of a decimal in plain notation.
- `legacy_numbers.dfy` and `legacy_reading.dfy` (modules `LegacyNumbers`,
  `LegacyReading`): the older `NumberConverter` under `src/main`, which
  writes two digits at a time into the writer's scratch buffer and parses
  the characters the older reader hands over, without overflow checks.
- `java_time.dfy` (module `JavaTime`): the `java.time` values the
  converters handle and the range rules of `LocalDate.of`, `LocalTime.of`,
  `LocalDateTime.of` and `ZoneOffset.ofHoursMinutes`, with `getId()` of an
  offset.
- `date_layout.dfy` (module `DateLayout`): the fixed `YYYY-MM-DD` and
  `HH:MM:SS` layouts and the stores that lay them into a byte array.
- `java_time_converter.dfy` (module `JavaTimeConverter`): the writing half
  of `JavaTimeConverter`: `writeNano`, `writeTimezone` and the serializers
  of `LocalDate`, `LocalTime`, `OffsetTime`, `LocalDateTime` and
  `OffsetDateTime` as methods on the writer, each proved to append the text
  a function of the value gives.
- `java_time_reading.dfy` (module `JavaTimeReading`): the reading half:
  `allDigits`, `readNanos` and the fast paths of the deserializers, as
  functions over the `tmp` characters `readSimpleQuote` leaves and their
  length.
- `java_time_round_trip.dfy` (module `JavaTimeRoundTrip`): what the
  serializers write, the deserializers read back.
- `joda_time.dfy` (module `JodaTime`): the Joda-Time `DateTime` and
  `LocalDate` values, the range rules of their constructors, and the text
  the converter gives them: the milliseconds and the zone (`Z`, or the
  offset at the value's instant as `±HH:MM`).
- `joda_time_converter.dfy` (module `JodaTimeConverter`): the library's
  `JodaTimeConverter`: `writeTimezone` and the two serializers as methods
  on the writer, and the fast paths of the two deserializers as functions.
- `legacy_joda_converter.dfy` (module `LegacyJodaConverter`): the older
  `JodaTimeConverter` under `src/main`, which stores the same text from the
  start of the writer's scratch buffer with the older `NumberConverter`
  and hands it over with `writeBuffer`. Its two deserializers are the same
  code as the library's and are modelled once, by
  `JodaTimeConverter.DeserializeDateTime` and
  `JodaTimeConverter.DeserializeLocalDate`.
- `joda_time_round_trip.dfy` (module `JodaTimeRoundTrip`): a UTC date-time
  and a date read back from what the serializers write; a date-time in any
  other zone goes to Joda's parser.
- `geometry.dfy` (module `Geometry`): the integer points of AWT and
  Android and Android's `Rect`, the JSON objects their serializers write,
  `width()`/`height()` and `new Rect(x, y, x + width, y + height)` in `int`
  arithmetic, and the chain of `equalsIgnoreCase` key tests as a function.
- `geom_reading.dfy` (module `GeomReading`): `deserializePoint` of
  `JavaGeomConverter` and `AndroidGeomConverter` and `deserializeRectangle`
  of `AndroidGeomConverter` as step functions over the reader's state; the
  two converters differ only in their error messages.
- `geom_converter.dfy` (module `GeomConverter`): the same serializers and
  deserializers as methods on the writer and the reader, with the source's
  attribute loop.
- `geom_round_trip.dfy` (module `GeomRoundTrip`): what the serializers
  write, the deserializers read back, and for any object of `int`
  attributes the last attribute named after a key decides it.

- `object_format.dfy` (module `ObjectFormat`): the runtime object decoder
  `ObjectFormatDescription` at the level of an object's members: `read`,
  `bind`, the fast loop of `bindContent` over the properties in declared
  order, `bindObjectSlow` with its full-hash lookup, `finalChecks` with the
  mandatory bit mask, and `skip` for unknown properties. Each step is a
  function, and methods with the source's loops over an array instance
  are proved to agree with them, `bindContent` as written included: without
  property decoders its loop does not run and `finalChecks` refuses the
  first member. A corrected `bindContent` hands such members to the slow
  path.
- `object_format_props.dfy` (module `ObjectFormatProperties`): for prepared
  property decoders, the fast path decides as the slow path does; an
  object is accepted exactly when every member is, the object is closed
  and no mandatory property is missing (as written, only with at least one
  property decoder or no member; corrected, always); the last member bound
  to a property wins.
- `struct_info.dfy` (module `StructInfo`): the annotation processor's class
  description: `calcHash`, `checkHashCollision`, `prepareMinifiedNames`
  with `buildShortName`, `sortAttributes`, the choice of constructor and
  the formats.
- `analysis.dfy` (module `Analysis`): `objectName`, `beanOrActualName` and
  the processor's checks on mixins (the discriminator's characters, the
  implementations' names) and on array-format indexes.
- `context.dfy` (module `Context`): the code-generation helpers
  `nonGenericObject`, `typeOrClass`, `getDefault` and `sortedAttributes`.
- `dsl_json.dfy` (module `DslJson`): `isNull`, the `SimpleStringCache` that
  hands out the same string instance for the same characters,
  `tryFindReader`, which registers what a converter factory creates, and
  `serializeMap`, which writes a map's entries as an object in iteration
  order.
- `mixin.dfy` (module `Mixin`): `MixinDescription`: its constructor, `read`
  in object and array format, and `write`, with the round trip from the
  description that writes an instance back to the same description.

## Model

| member | source | states |
|---|---|---|
| `JsonReader.JsonReader.Read` | library/src/main/java/com/dslplatform/json/JsonReader.java:132-137 | fails with "Unexpected end of JSON input" exactly when the cursor is at `length`; otherwise returns the byte under the cursor, stores it in `last` and advances by one |
| `JsonReader.JsonReader.constructor` | library/src/main/java/com/dslplatform/json/JsonReader.java:92-102 | a reader over `buffer[..length]`; when `length` is below the buffer size a `'\0'` sentinel is written at `buffer[length]` and nothing else changes |
| `JsonReader.NewReader` | library/src/main/java/com/dslplatform/json/JsonReader.java:92-102 | rejects `length > buffer.length` with "length can't be longer than buffer.length"; otherwise builds the reader at position 0 |
| `ReaderSpec.NextTokenIsNotWhitespace` | library/src/main/java/com/dslplatform/json/JsonReader.java:437-515 | `getNextToken` returns a byte `wasWhiteSpace` rejects, that byte is `last`, and the cursor has moved forward |
| `ReaderSpec.SkipWhitespaceStops` | library/src/main/java/com/dslplatform/json/JsonReader.java:507-515 | the whitespace loop stops on a byte that is not whitespace |
| `ReaderSpec.NextTokenPlain` | library/src/main/java/com/dslplatform/json/JsonReader.java:507-515 | a byte outside the whitespace table is itself the next token, one byte on |
| `JsonReader.JsonReader.WasWhiteSpace` | library/src/main/java/com/dslplatform/json/JsonReader.java:437-505 | recognises bytes 9-13 and 32 and the multi-byte Unicode spaces (U+00A0, U+1680, U+2000-U+200A, U+2028, U+2029, U+202F, U+205F, U+3000), skipping their continuation bytes |
| `JsonReader.JsonReader.GetNextToken` | library/src/main/java/com/dslplatform/json/JsonReader.java:507-515 | the loop of `getNextToken` ends in the state `NextToken` describes |
| `JsonReader.JsonReader.ScanNumber` | library/src/main/java/com/dslplatform/json/JsonReader.java:191-204 | `tokenStart` is one before the cursor; the cursor stops on the first `,`, `}` or `]` within `length`, which becomes `last` |
| `JsonReader.JsonReader.HashName` | library/src/main/java/com/dslplatform/json/JsonReader.java:540-547 | the loop stops on the first quote (or the end of the buffer) and its hash is the FNV-1a hash of the bytes before it |
| `ReaderSpec.CalcHashClosed` | library/src/main/java/com/dslplatform/json/JsonReader.java:535-550 | with a closing quote, `calcHash` returns the FNV-1a hash (offset 0x811c9dc5, prime 0x01000193) of the name's bytes and brackets the name with `tokenStart` and `nameEnd` |
| `ReaderSpec.CalcHashUnclosed` | library/src/main/java/com/dslplatform/json/JsonReader.java:535-550 | without a closing quote the scan runs to the end of the buffer, beyond `length` |
| `JsonReader.JsonReader.CalcHash` | library/src/main/java/com/dslplatform/json/JsonReader.java:535-550 | fails with "Expecting '\"'" unless `last` is a quote; otherwise ends in the state `CalcHash` gives |
| `JsonReader.JsonReader.FillName` | library/src/main/java/com/dslplatform/json/JsonReader.java:525-533 | the name's hash, then the `:` (possibly after whitespace) or the error "Expecting ':'" |
| `JsonReader.JsonReader.WeakHash` | library/src/main/java/com/dslplatform/json/processor/ConverterTemplate.java:1135-1141 | the weak hash is the 32-bit sum of the name's signed bytes |
| `JsonReader.JsonReader.FillNameWeakHash` | library/src/main/java/com/dslplatform/json/runtime/ObjectFormatDescription.java:98 | reads a name as `fillName` does, remembers its full hash and returns its weak hash |
| `ReaderSpec.WasLastNameExact` | library/src/main/java/com/dslplatform/json/JsonReader.java:552-562 | `wasLastName(name)` holds iff the name has the length `nameEnd - tokenStart - 1` and every character equals the buffer byte |
| `ReaderSpec.WasLastNameAfterCalcHash` | library/src/main/java/com/dslplatform/json/JsonReader.java:535-562 | after `calcHash` over a closed name, `wasLastName` holds exactly for that name |
| `JsonReader.JsonReader.WasLastName` | library/src/main/java/com/dslplatform/json/JsonReader.java:552-562 | the comparison loop returns what `WasLastName` gives |
| `ReaderSpec.WasNullExact` | library/src/main/java/com/dslplatform/json/JsonReader.java:721-740 | false with no input consumed when `last` is not `n`; when it is, exactly `ull` is consumed or the call fails |
| `JsonReader.JsonReader.WasNull` | library/src/main/java/com/dslplatform/json/JsonReader.java:721-740 | `wasNull` as the literal step function gives it |
| `JsonReader.JsonReader.WasTrue` | library/src/main/java/com/dslplatform/json/JsonReader.java:742-761 | `wasTrue`: `rue` after `t`, or "Invalid boolean value found" |
| `JsonReader.JsonReader.WasFalse` | library/src/main/java/com/dslplatform/json/JsonReader.java:763-775 | `wasFalse`: `alse` after `f`, or "Invalid boolean value found" |
| `JsonReader.JsonReader.CheckArrayEnd` | library/src/main/java/com/dslplatform/json/JsonReader.java:777-783 | fails unless `last` is `]`, with "Unexpected end of JSON in collection" at the end of the input |
| `JsonReader.JsonReader.HexAt` | library/src/main/java/com/dslplatform/json/JsonReader.java:430-435 | `hexToInt` accepts exactly `[0-9A-Fa-f]` |
| `JsonReader.JsonReader.Escape` | library/src/main/java/com/dslplatform/json/JsonReader.java:350-383 | the escapes `\b \t \n \f \r \" \/ \\` and `\uXXXX`; any other letter is "Invalid escape combination" |
| `JsonReader.JsonReader.Utf8` | library/src/main/java/com/dslplatform/json/JsonReader.java:386-418 | two-, three- and four-byte UTF-8 sequences decode to their code point; a supplementary one, as written, to its surrogate pair followed by its low 16 bits; code points from 0x110000 and 5-byte leads fail |
| `JsonReader.JsonReader.ParseString` | library/src/main/java/com/dslplatform/json/JsonReader.java:305-428 | the fast copying loop and the slow decoding loop end in the state `ParseString` gives, with the 4-byte branch as written (three units per supplementary character) |
| `JsonReader.JsonReader.CopyPlain` | library/src/main/java/com/dslplatform/json/JsonReader.java:305-328 | the fast loop copies plain bytes while there is room and stops on a quote, an escape or a high byte |
| `JsonReader.JsonReader.SlowPath` | library/src/main/java/com/dslplatform/json/JsonReader.java:329-427 | the slow loop decodes unit after unit, with the 4-byte branch as written, until the closing quote, or fails with "not closed with a double quote" |
| `JsonReader.JsonReader.SkipString` | library/src/main/java/com/dslplatform/json/JsonReader.java:568-585 | skips to the quote that no backslash escapes |
| `JsonReader.JsonReader.Skip` | library/src/main/java/com/dslplatform/json/JsonReader.java:587-661 | skips one value (string, object, array, literal or number) and returns the token after it |
| `JsonReader.JsonReader.SkipObject` | library/src/main/java/com/dslplatform/json/JsonReader.java:589-631 | skips the members of an object up to `}` |
| `JsonReader.JsonReader.SkipArray` | library/src/main/java/com/dslplatform/json/JsonReader.java:632-650 | skips the elements of an array up to `]` |
| `ReaderSpec.ReadSimpleQuote` | library/src/main/java/com/dslplatform/json/JsonReader.java:270-289 | fails with "Expecting '\"'" unless the last byte is a quote; on success the token starts at the old cursor and the cursor has moved forward, never past `length`, with nothing else changed |
| `JsonReader.JsonReader.ReadSimpleQuote` | library/src/main/java/com/dslplatform/json/JsonReader.java:270-289 | the scan loop agrees with `ReaderSpec.ReadSimpleQuote`: the same error, or that function's new state |
| `ReaderSpec.PrepareBuffer` | library/src/main/java/com/dslplatform/json/JsonReader.java:206-217 | only the `chars` capacity changes; it never shrinks and ends large enough for the input from `start` to `length` |
| `JsonReader.JsonReader.PrepareBuffer` | library/src/main/java/com/dslplatform/json/JsonReader.java:206-210 | the doubling loop ends in the state `ReaderSpec.PrepareBuffer` gives |
| `JsonReader.JsonReader.AllWhitespace` | library/src/main/java/com/dslplatform/json/JsonReader.java:219-225 | true exactly when every byte in `[start, end)` is in the whitespace table |
| `ReaderSpec.FindNonWhitespace` | library/src/main/java/com/dslplatform/json/JsonReader.java:227-233 | one past the last byte before `end` that is not whitespace, looking back no further than index 1, and 0 when there is none; every byte from there to `end` is whitespace |
| `JsonReader.JsonReader.FindNonWhitespace` | library/src/main/java/com/dslplatform/json/JsonReader.java:227-233 | the backward loop returns `ReaderSpec.FindNonWhitespace` |
| `StringCodec.SimpleQuoteRoundTrip` | library/src/main/java/com/dslplatform/json/JsonReader.java:270-289 | on a quoted token without an inner quote that is shorter than `tmp`, the token starts at the cursor, the cursor stops just after the closing quote, and the bytes the loop copies into `tmp` are the token's |
| `SkipRoundTrip.SkipWrittenString` | library/src/main/java/com/dslplatform/json/JsonReader.java:587-588 | `skip()` on the opening quote of a string `writeString` wrote returns the token after its closing quote, read from just past that quote |
| `SkipRoundTrip.SkipStringOver` | library/src/main/java/com/dslplatform/json/JsonReader.java:568-579 | `skipString()` started after the opening quote of a written string returns the token after its closing quote |
| `SkipRoundTrip.SkipEscaped` | library/src/main/java/com/dslplatform/json/JsonReader.java:572-576 | the `skipString()` loop, entered on the first byte of an escaped form followed by a quote, stops on that quote |
| `SkipRoundTrip.SkipUnit` | library/src/main/java/com/dslplatform/json/JsonReader.java:572-576 | the loop steps over one escape unit (an escape, or a run without quotes and backslashes) and is left outside any escape on the byte after it |
| `SkipRoundTrip.PlainRun` | library/src/main/java/com/dslplatform/json/JsonReader.java:572-576 | bytes that are neither quotes nor backslashes are read one at a time without entering an escape |
| `SkipRoundTrip.UnitSkips` | library/src/main/java/com/dslplatform/json/JsonWriter.java:111-283 | every unit `writeQuotedString` emits has that shape: a quote or a backslash appears only as the second byte of an escape |
| `JsonReader.JsonReader.ReadElement` | library/src/main/java/com/dslplatform/json/JsonReader.java:806-821 | `null` is a null element when nullable; anything else is read by the element reader |
| `JsonReader.JsonReader.DeserializeCollection` | library/src/main/java/com/dslplatform/json/JsonReader.java:791-821 | the loop reads elements while the next token is a comma and ends in the state `Collection` gives, or fails as it does |
| `Collections.MoreElementsAppends` | library/src/main/java/com/dslplatform/json/JsonReader.java:791-798 | the loop only appends: the elements read before it stay first, in order |
| `Collections.CollectionStartsWithElement` | library/src/main/java/com/dslplatform/json/JsonReader.java:791-798 | the collection starts with the first element read |
| `Collections.CollectionRoundTrip` | library/src/main/java/com/dslplatform/json/JsonReader.java:806-821 | what the writer joins, read back by any element reader that reads back strings, is the same elements in order; a null element comes back as null; the cursor ends just after `]` |
| `Collections.StringCollectionRoundTrip` | library/src/main/java/com/dslplatform/json/JsonWriter.java:490-515 | a serialized collection of strings without surrogate code units is read back element for element by `deserializeNullableCollection` with `parseString` as written |
| `Collections.JoinOkIffWritable` | library/src/main/java/com/dslplatform/json/JsonWriter.java:490-515 | joining fails iff some element cannot be written |
| `Collections.StringsReadBack` | library/src/main/java/com/dslplatform/json/JsonReader.java:305-428 | `parseString` as written moves the cursor forward and reads back every string without surrogate code units that the writer writes |
| `StringCodec.ParseStringRoundTrip` | library/src/main/java/com/dslplatform/json/JsonReader.java:305-428 | `parseString` as written, started after the opening quote of a string `writeString` wrote without surrogate code units, returns that string and stops just after the closing quote; with the corrected 4-byte branch this holds for every string `writeString` can write |
| `StringCodec.SlowRoundTrip` | library/src/main/java/com/dslplatform/json/JsonReader.java:329-427 | the slow loop, started at any unit boundary of a written string, returns the whole string: as written for strings without surrogate code units, corrected for every string |
| `StringCodec.FastRoundTrip` | library/src/main/java/com/dslplatform/json/JsonReader.java:305-328 | the fast loop, by itself or handing over to the slow loop, returns the whole string: as written for strings without surrogate code units, corrected for every string |
| `StringCodec.UnitDecodes` | library/src/main/java/com/dslplatform/json/JsonReader.java:337-424 | each unit the writer emits for one character (or, with the corrected 4-byte branch, a surrogate pair) decodes back to it; as written this is stated for strings without surrogate code units |
| `StringCodec.FourByteUnitDecodes` | library/src/main/java/com/dslplatform/json/JsonReader.java:398-424 | the four bytes the writer emits for a supplementary code point decode, as written, to its surrogate pair followed by its low 16 bits, and to the pair alone with the branch corrected |
| `StringCodec.HexRoundTrip` | library/src/main/java/com/dslplatform/json/JsonReader.java:430-435 | `hexToInt` inverts the writer's upper-case hex digit |
| `StringCodec.TwoBytesDecode` | library/src/main/java/com/dslplatform/json/JsonReader.java:392-393 | decoding two UTF-8 bytes inverts their encoding |
| `StringCodec.ThreeBytesDecode` | library/src/main/java/com/dslplatform/json/JsonReader.java:396-397 | decoding three UTF-8 bytes inverts their encoding |
| `StringCodec.FourBytesDecode` | library/src/main/java/com/dslplatform/json/JsonReader.java:400-401 | decoding four UTF-8 bytes inverts their encoding |
| `StringCodec.SurrogatesRoundTrip` | library/src/main/java/com/dslplatform/json/JsonReader.java:406-414 | splitting a supplementary code point into surrogates inverts combining them |
| `ReaderSpec.FourByteAsWrittenAddsUnit` | library/src/main/java/com/dslplatform/json/JsonReader.java:406-424 | U+1F600 decodes, as written, to D83D DE00 and a stray F600 |
| `JsonWriter.JsonWriter.EnsureCapacity` | library/src/main/java/com/dslplatform/json/JsonWriter.java:23-28 | afterwards `position + free < result.length` (for a non-empty buffer) and the bytes written are unchanged |
| `JsonWriter.JsonWriter.WriteNull` | library/src/main/java/com/dslplatform/json/JsonWriter.java:70-81 | appends exactly `null`, or fails when the growth step leaves too little room |
| `JsonWriter.JsonWriter.WriteByte` | library/src/main/java/com/dslplatform/json/JsonWriter.java:83-88 | appends exactly one byte, or fails when the growth step leaves no room |
| `JsonWriter.RoomyFits` | library/src/main/java/com/dslplatform/json/JsonWriter.java:70-88 | from eight bytes of buffer on, the growth steps of `writeNull` and `writeByte` always make room |
| `JsonWriter.NullDoesNotFitSmallBuffer` | library/src/main/java/com/dslplatform/json/JsonWriter.java:70-88 | a four-byte buffer with three bytes used does not fit `null` after the growth step |
| `JsonWriter.JsonWriter.WriteString` | library/src/main/java/com/dslplatform/json/JsonWriter.java:90-110 | appends `"`, the escaped text and `"`, or fails with the serialization error of the first unencodable character, leaving the contents as they were |
| `JsonWriter.EscapedPlain` | library/src/main/java/com/dslplatform/json/JsonWriter.java:111-120 | printable ASCII other than `"` and `\` is copied unchanged; `/` is not escaped |
| `JsonWriter.EscapedHasNoBareQuote` | library/src/main/java/com/dslplatform/json/JsonWriter.java:111-283 | every quote in the escaped form follows a backslash |
| `JsonWriter.JsonWriter.WriteAscii` | library/src/main/java/com/dslplatform/json/JsonWriter.java:303-314 | appends the bytes unchanged |
| `JsonWriter.JsonWriter.Size` | library/src/main/java/com/dslplatform/json/JsonWriter.java:354-356 | the number of bytes written |
| `JsonWriter.JsonWriter.Reset` | library/src/main/java/com/dslplatform/json/JsonWriter.java:358-360 | the writer is empty again and keeps its buffer |
| `JsonWriter.JsonWriter.ToByteArray` | library/src/main/java/com/dslplatform/json/JsonWriter.java:342-344 | a fresh array holding exactly the bytes written |
| `JsonWriter.JsonWriter.WriteElements` | library/src/main/java/com/dslplatform/json/JsonWriter.java:490-515 | the elements in order, separated by single commas, a null element written as `null` |
| `JsonWriter.JsonWriter.Serialize` | library/src/main/java/com/dslplatform/json/JsonWriter.java:438-515 | `null` for a null container, `[]` when empty, otherwise `[`, the joined elements and `]` |
| `JsonWriter.CollectionEmpty` | library/src/main/java/com/dslplatform/json/JsonWriter.java:490-496 | an empty collection is written as `[]` |
| `JsonWriter.CollectionSnoc` | library/src/main/java/com/dslplatform/json/JsonWriter.java:497-515 | appending an element appends a comma and that element's bytes |
| `JsonWriter.JoinErrExtends` | library/src/main/java/com/dslplatform/json/JsonWriter.java:497-515 | an element that cannot be written fails the whole collection |
| `NumberConverter.DigitsLayout` | library/src/main/java/com/dslplatform/json/NumberConverter.java:80-86 | entry `i` of `DIGITS` holds the hundreds, tens and units digits of `i` in bytes 2, 1 and 0, and in the top byte the number of leading zeros (2 below 10, 1 below 100, else 0) |
| `NumberConverter.DigitsShortest` | library/src/main/java/com/dslplatform/json/NumberConverter.java:80-86 | skipping that many leading digits of the three-digit form leaves exactly the shortest decimal form of `i` |
| `NumberConverter.BuildDigits` | library/src/main/java/com/dslplatform/json/NumberConverter.java:80-86 | the static initializer fills all 1000 entries of the table |
| `NumberConverter.Write4` | library/src/main/java/com/dslplatform/json/NumberConverter.java:94-104 | for any `int`: fails with an `IllegalArgumentException` above 9999 and with an index error for a negative value that is not a multiple of 1000, in both cases writing nothing; writes the four zero-padded digits of a value from 0 to 9999, and `(byte) (q + '0')` followed by `000` for a negative multiple `q * 1000`; nothing else changes |
| `NumberConverter.Write3` | library/src/main/java/com/dslplatform/json/NumberConverter.java:106-112 | writes the three zero-padded digits of a number below 1000 at `pos` |
| `NumberConverter.Write2` | library/src/main/java/com/dslplatform/json/NumberConverter.java:113-117 | writes the two zero-padded digits of a number below 100 at `pos` |
| `NumberConverter.Read2` | library/src/main/java/com/dslplatform/json/NumberConverter.java:119-122 | over two digit characters, the value of those digits |
| `NumberConverter.Read4` | library/src/main/java/com/dslplatform/json/NumberConverter.java:124-131 | over four digit characters, the value of those digits |
| `NumberConverter.Read2Write2` | library/src/main/java/com/dslplatform/json/NumberConverter.java:113-122 | `read2` gives back the value whose two digits `write2` writes |
| `NumberConverter.StoreThousands` | library/src/main/java/com/dslplatform/json/NumberConverter.java:98-103 | stores `(byte) (q + '0')` and the three digits of `DIGITS[rest]` at `pos` |
| `NumberConverter.ThousandsDigits` | library/src/main/java/com/dslplatform/json/NumberConverter.java:98-103 | for 0 to 9999, the thousands byte and the three digits of the remainder are the four zero-padded digits |
| `Java.TruncDiv` | library/src/main/java/com/dslplatform/json/NumberConverter.java:98 | Java's `/` on `int`: the remainder takes the dividend's sign, is zero exactly when the Euclidean one is, and the quotients then agree |
| `NumberConverter.Read4Write4` | library/src/main/java/com/dslplatform/json/NumberConverter.java:94-131 | `read4` gives back the value whose four digits `write4` writes |
| `NumberConverter.WriteFirstBuf` | library/src/main/java/com/dslplatform/json/NumberConverter.java:718-728 | writes the shortest digits of a group below 1000 and returns how many |
| `NumberConverter.WriteBuf` | library/src/main/java/com/dslplatform/json/NumberConverter.java:730-734 | appends the three zero-padded digits of a group to what is already written |
| `NumberConverter.MinIntText` | library/src/main/java/com/dslplatform/json/NumberConverter.java:475 | the `MIN_INT` literal is the decimal form of `Integer.MIN_VALUE` |
| `NumberConverter.MinLongText` | library/src/main/java/com/dslplatform/json/NumberConverter.java:736 | the `MIN_LONG` literal is the decimal form of `Long.MIN_VALUE` |
| `NumberConverter.SerializeIntAt` | library/src/main/java/com/dslplatform/json/NumberConverter.java:484-527 | writes exactly the decimal form of the `int` at `pos` and returns the position after it |
| `NumberConverter.IntDigitsAt` | library/src/main/java/com/dslplatform/json/NumberConverter.java:498-527 | the groups of three digits of a non-negative `int` are its shortest decimal digits |
| `NumberConverter.LargeIntDigitsAt` | library/src/main/java/com/dslplatform/json/NumberConverter.java:512-527 | for a magnitude of seven or more digits, the leading group and the groups of three are its shortest decimal digits |
| `NumberConverter.SerializeLongAt` | library/src/main/java/com/dslplatform/json/NumberConverter.java:745-833 | writes exactly the decimal form of the `long` at `pos` and returns the position after it |
| `NumberConverter.LongDigitsAt` | library/src/main/java/com/dslplatform/json/NumberConverter.java:759-832 | the groups of three digits of a non-negative `long` are its shortest decimal digits |
| `NumberConverter.LargeLongDigitsAt` | library/src/main/java/com/dslplatform/json/NumberConverter.java:773-832 | for a `long` magnitude of seven or more digits, the leading groups and the groups of three are its shortest decimal digits |
| `NumberConverter.LongHeadAt` | library/src/main/java/com/dslplatform/json/NumberConverter.java:784-826 | the digits above the lowest nine of a `long` are written as its shortest form |
| `NumberConverter.DecimalLength` | library/src/main/java/com/dslplatform/json/NumberConverter.java:477-480 | an `int` takes at most 11 bytes and a `long` at most 20, within the 11 and 21 the writers reserve |
| `NumberConverter.SerializeInt` | library/src/main/java/com/dslplatform/json/NumberConverter.java:477-482 | appends the decimal form of the `int` to the writer |
| `NumberConverter.SerializeLong` | library/src/main/java/com/dslplatform/json/NumberConverter.java:738-743 | appends the decimal form of the `long` to the writer |
| `NumberConverter.SerializeNullable` | library/src/main/java/com/dslplatform/json/NumberConverter.java:466-473 | `null` for a missing `Integer` or `Long` (or the error of `writeNull`), the decimal form otherwise |
| `NumberConverter.JoinDecimalLength` | library/src/main/java/com/dslplatform/json/NumberConverter.java:529-546 | values of at most `w` bytes each join to at most `(w + 1) * n - 1` bytes |
| `NumberConverter.JoinDecimalPrefix` | library/src/main/java/com/dslplatform/json/NumberConverter.java:537-541 | joining a prefix of the values never gives more bytes than joining all of them |
| `NumberConverter.JoinStep` | library/src/main/java/com/dslplatform/json/NumberConverter.java:538-541 | one more turn of the loop appends a comma and the next value's decimal form |
| `NumberConverter.SerializeNumbers` | library/src/main/java/com/dslplatform/json/NumberConverter.java:535-545 | after `ensureCapacity(perValue * n + 2)`, appends `[`, the joined values and `]` iff they fit the array, and fails with `IndexOutOfBounds` leaving the contents alone otherwise |
| `NumberConverter.StoreNumbers` | library/src/main/java/com/dslplatform/json/NumberConverter.java:536-544 | the stores into the array succeed iff the whole text fits, write exactly it and keep the bytes before the start |
| `NumberConverter.StoreElements` | library/src/main/java/com/dslplatform/json/NumberConverter.java:537-541 | the loop writes `[` and the joined values, or fails exactly when they do not fit |
| `NumberConverter.StoreFirst` | library/src/main/java/com/dslplatform/json/NumberConverter.java:537-538 | the first store writes `[` and the first value, or fails when they do not fit |
| `NumberConverter.StoreNext` | library/src/main/java/com/dslplatform/json/NumberConverter.java:539-541 | one turn writes a comma and the next value, or fails when the whole text does not fit |
| `NumberConverter.SerializeIntArray` | library/src/main/java/com/dslplatform/json/NumberConverter.java:529-546 | `null` for a null array, `[]` for an empty one, otherwise the bracketed values when they fit the room of 11 bytes per value and `IndexOutOfBounds` when they do not |
| `NumberConverter.SerializeIntArrayReserved` | library/src/main/java/com/dslplatform/json/NumberConverter.java:529-546 | with 12 bytes reserved per value, an `int` array is always written in full |
| `NumberConverter.SerializeLongArray` | library/src/main/java/com/dslplatform/json/NumberConverter.java:835-852 | `null`, `[]`, or the bracketed values; the 21 bytes reserved per value always suffice |
| `NumberConverter.SerializeArray` | library/src/main/java/com/dslplatform/json/NumberConverter.java:835-852 | the shared body of the array writers: `null`, `[]`, or the values written in place as `SerializeNumbers` states |
| `NumberConverter.RoomSuffices` | library/src/main/java/com/dslplatform/json/NumberConverter.java:841 | one more byte per value than its longest decimal form is enough room for the whole array |
| `NumberConverter.IntArrayRoomTooSmall` | library/src/main/java/com/dslplatform/json/NumberConverter.java:535 | three copies of -1000000000 take 37 bytes with brackets and commas, more than the 35 that `values.length * 11 + 2` reserves: a writer with 36 bytes of room is not grown and the closing bracket falls outside its array |
| `NumberReading.Wrap` | library/src/main/java/com/dslplatform/json/NumberConverter.java:596 | arithmetic in an `int` or `long` gives a value of that width, and any value already in range unchanged |
| `NumberReading.NumberGeneric` | library/src/main/java/com/dslplatform/json/NumberConverter.java:141-151 | the `BigDecimal` parser sees the token's bytes through `prepareBuffer` |
| `NumberReading.IntegralFromGeneric` | library/src/main/java/com/dslplatform/json/NumberConverter.java:593-595 | the fallback gives an `int` or `long` (the low bits of the parsed value) or fails on a fractional scale |
| `NumberReading.DigitLoop` | library/src/main/java/com/dslplatform/json/NumberConverter.java:586-620 | the int and long loops give a value of the integer's width, leaving the reader as it was or as `prepareBuffer` leaves it |
| `NumberReading.QuotedIntegral` | library/src/main/java/com/dslplatform/json/NumberConverter.java:565-572 | a quoted number is converted exactly: in range, or an overflow error |
| `NumberReading.ReadIntegral` | library/src/main/java/com/dslplatform/json/NumberConverter.java:564-584 | `deserializeInt` and `deserializeLong` give a value in range and never move the cursor back |
| `NumberReading.ReadNumberToken` | library/src/main/java/com/dslplatform/json/NumberConverter.java:935-961 | the unquoted token of `deserializeDecimal` is a decimal and never moves the cursor back |
| `NumberReading.IntegralArray` | library/src/main/java/com/dslplatform/json/NumberConverter.java:626-643 | an `int[]` or `long[]` read ends on `]`, and every element is in the integer's range |
| `NumberReading.MoreIntegrals` | library/src/main/java/com/dslplatform/json/NumberConverter.java:632-640 | the loop only appends to the elements read before it and ends on `]` |
| `NumberReading.MoreIntegralsInRange` | library/src/main/java/com/dslplatform/json/NumberConverter.java:632-640 | every element the loop appends lies in the integer's range |
| `NumberReading.ParseNumberGeneric` | library/src/main/java/com/dslplatform/json/NumberConverter.java:141-151 | the method returns what `NumberGeneric` gives and leaves the reader in its state |
| `NumberReading.ParseIntegralGeneric` | library/src/main/java/com/dslplatform/json/NumberConverter.java:901-905 | `parseLongGeneric` returns what `IntegralFromGeneric` gives |
| `NumberReading.ParseDigits` | library/src/main/java/com/dslplatform/json/NumberConverter.java:586-620 | `parsePositiveInt`, `parseNegativeInt` and the loops of `deserializeLong` return what `DigitLoop` gives |
| `NumberReading.DigitsLoop` | library/src/main/java/com/dslplatform/json/NumberConverter.java:588-599 | the digit loop stops at the end, at a non-digit or at a change of sign, and what is left of `DigitLoop` is the rest from there |
| `NumberReading.DigitsEnd` | library/src/main/java/com/dslplatform/json/NumberConverter.java:590-594 | at a non-digit: the value when only whitespace follows, else the `BigDecimal` fallback |
| `NumberReading.DeserializeQuoted` | library/src/main/java/com/dslplatform/json/NumberConverter.java:565-572 | the quoted branch returns what `QuotedIntegral` gives |
| `NumberReading.DeserializeIntegral` | library/src/main/java/com/dslplatform/json/NumberConverter.java:564-584 | `deserializeInt`/`deserializeLong` return what `ReadIntegral` gives and leave the reader in its state |
| `NumberReading.ParseExponent` | library/src/main/java/com/dslplatform/json/NumberConverter.java:989-1001 | the exponent loop returns what `Exponent` gives |
| `NumberReading.ParseFraction` | library/src/main/java/com/dslplatform/json/NumberConverter.java:976-1003 | the fraction loop returns what `FractionDigits` gives |
| `NumberReading.FractionLoop` | library/src/main/java/com/dslplatform/json/NumberConverter.java:979-987 | it stops at the end, at an exponent mark or at another non-digit, and `FractionDigits` continues from there unchanged |
| `NumberReading.ParseIntegerDigits` | library/src/main/java/com/dslplatform/json/NumberConverter.java:963-1018 | the digits before the point return what `IntegerDigits` gives |
| `NumberReading.IntegerDigitsLoop` | library/src/main/java/com/dslplatform/json/NumberConverter.java:966-974 | it stops at the end, at `.`, at an exponent mark or at another non-digit, and `IntegerDigits` continues from there unchanged |
| `NumberReading.NotADigit` | library/src/main/java/com/dslplatform/json/NumberConverter.java:969-973 | another byte ends the number on trailing whitespace (not in `parsePositiveDecimal`) or goes to the `BigDecimal` parser |
| `NumberReading.AfterIntegerDigits` | library/src/main/java/com/dslplatform/json/NumberConverter.java:975-1017 | after the digits: the end of the token, a fraction or an exponent, as `IntegerDigits` states |
| `NumberReading.ParseMantissa` | library/src/main/java/com/dslplatform/json/NumberConverter.java:953-960 | the sign dispatch returns what `Mantissa` gives |
| `NumberReading.DeserializeNumberToken` | library/src/main/java/com/dslplatform/json/NumberConverter.java:939-960 | a token over 18 bytes is trimmed and then parsed by `BigDecimal` when it is still long or ends the input; otherwise by the loops, as `ReadNumberToken` states |
| `NumberReading.DeserializeDecimal` | library/src/main/java/com/dslplatform/json/NumberConverter.java:935-961 | `deserializeDecimal` returns what `ReadDecimal` gives |
| `NumberReading.DeserializeNumber` | library/src/main/java/com/dslplatform/json/NumberConverter.java:1095-1117 | `deserializeNumber` returns what `ReadNumber` gives |
| `NumberReading.CopyOf` | library/src/main/java/com/dslplatform/json/NumberConverter.java:642 | `Arrays.copyOf`: the first `n` elements, padded with zeros |
| `NumberReading.Store` | library/src/main/java/com/dslplatform/json/NumberConverter.java:634-637 | the buffer is doubled when full and the element is stored after the ones before it |
| `NumberReading.ReadMoreIntegrals` | library/src/main/java/com/dslplatform/json/NumberConverter.java:632-640 | the loop leaves in the buffer exactly the elements `MoreIntegrals` gives |
| `NumberReading.DeserializeIntegralArray` | library/src/main/java/com/dslplatform/json/NumberConverter.java:626-661 | `deserializeIntArray` and `deserializeLongArray` return a fresh array of exactly the elements `IntegralArray` gives |
| `NumberProperties.AccumulateAtLeast` | library/src/main/java/com/dslplatform/json/NumberConverter.java:596 | accumulating digits never makes a value smaller |
| `NumberProperties.DigitsValueBelow` | library/src/main/java/com/dslplatform/json/NumberConverter.java:596 | `n` digits are worth less than `10^n` |
| `NumberProperties.NumberEndAt` | library/src/main/java/com/dslplatform/json/JsonReader.java:191-204 | `scanNumber` stops on the first `,`, `}` or `]`, or at the end of the input |
| `NumberProperties.DigitLoopPrefix` | library/src/main/java/com/dslplatform/json/NumberConverter.java:586-620 | over digits whose value fits, the loops accumulate exactly: no wrap-around, no overflow report |
| `NumberProperties.DigitLoopDigits` | library/src/main/java/com/dslplatform/json/NumberConverter.java:586-620 | digits to the end of the token whose value fits are read as exactly that value |
| `NumberProperties.DigitLoopTrailingWhitespace` | library/src/main/java/com/dslplatform/json/NumberConverter.java:590-591 | digits followed only by whitespace are read as the digits, without the `BigDecimal` parser |
| `NumberProperties.DigitLoopFallback` | library/src/main/java/com/dslplatform/json/NumberConverter.java:590-594 | any other non-digit sends the token to the `BigDecimal` parser: a fractional scale is an error, any other value is narrowed |
| `NumberProperties.ReadIntegralToken` | library/src/main/java/com/dslplatform/json/NumberConverter.java:573-583 | an unquoted token goes to the negative loop after `-`, the positive loop after `+`, and the positive loop otherwise |
| `NumberProperties.ReadIntegralDecimal` | library/src/main/java/com/dslplatform/json/NumberConverter.java:564-620 | round trip: `deserializeInt`/`deserializeLong` read back the value whose decimal form `serialize` writes, and stop after it |
| `NumberProperties.WrappingLoop` | library/src/main/java/com/dslplatform/json/NumberConverter.java:586-602 | the positive `int` loop over `4294967296` ends with 0 and no overflow report |
| `NumberProperties.WrappedIntIsZero` | library/src/main/java/com/dslplatform/json/NumberConverter.java:586-602 | `deserializeInt` reads the text `4294967296` as 0 |
| `NumberProperties.CheckedDigitLoop` | library/src/main/java/com/dslplatform/json/NumberConverter.java:586-620 | the loop with an exact range check gives only values of the integer's width |
| `NumberProperties.CheckedDigitLoopExact` | library/src/main/java/com/dslplatform/json/NumberConverter.java:586-620 | the checked loop gives the digits' value iff it fits the width and the overflow error iff it does not |
| `NumberProperties.DigitLoopAgreesWhenInRange` | library/src/main/java/com/dslplatform/json/NumberConverter.java:586-620 | where the checked loop succeeds, the loop as written gives the same |
| `NumberProperties.CheckedRejectsWrap` | library/src/main/java/com/dslplatform/json/NumberConverter.java:586-602 | the checked loop reports `4294967296` as an `int` overflow |
| `NumberProperties.ReadNumberTokenShort` | library/src/main/java/com/dslplatform/json/NumberConverter.java:939-960 | a token of at most 18 bytes goes to the digit loops, never to the `BigDecimal` parser |
| `NumberProperties.IntegerDigitsRun` | library/src/main/java/com/dslplatform/json/NumberConverter.java:966-974 | digits before the point whose value fits a `long` are accumulated exactly |
| `NumberProperties.FractionDigitsRun` | library/src/main/java/com/dslplatform/json/NumberConverter.java:979-987 | digits after the point are accumulated exactly into the same unscaled value |
| `NumberProperties.ShortDigitsFit` | library/src/main/java/com/dslplatform/json/NumberConverter.java:942 | at most 18 digits always fit a `long` |
| `NumberProperties.MantissaPlain` | library/src/main/java/com/dslplatform/json/NumberConverter.java:963-1003 | `whole.fraction` gives the unscaled value of both runs of digits, with the sign, and the number of fraction digits as the scale |
| `NumberProperties.ReadDecimalPlain` | library/src/main/java/com/dslplatform/json/NumberConverter.java:935-1003 | `deserializeDecimal` of a plain decimal of at most 18 bytes: the digits on both sides of the point as the unscaled value, the fraction length as the scale |
| `NumberProperties.FractionExponent` | library/src/main/java/com/dslplatform/json/NumberConverter.java:989-1001 | after an exponent mark the scale is the number of fraction digits less the exponent |
| `NumberProperties.MantissaExponent` | library/src/main/java/com/dslplatform/json/NumberConverter.java:963-1003 | `whole.fractionEexp`: the unscaled value of the digits and the scale `fraction digits - exponent` |
| `NumberProperties.TryLongExact` | library/src/main/java/com/dslplatform/json/NumberConverter.java:1082-1093 | `tryLongFromBigDecimal` gives a `Long` iff the scale is 0 and the value fits a `long`, with the same value; otherwise the decimal itself |
| `DecimalCodec.PlainForm` | library/src/main/java/com/dslplatform/json/NumberConverter.java:931-933 | `toString()` of a decimal with a positive scale and adjusted exponent of at least -6 is a plain decimal with `scale` fraction digits whose digits are worth the unscaled magnitude |
| `DecimalCodec.IntegerForm` | library/src/main/java/com/dslplatform/json/NumberConverter.java:931-933 | a decimal of scale 0 is written as its unscaled value |
| `DecimalCodec.ReadDecimalInteger` | library/src/main/java/com/dslplatform/json/NumberConverter.java:935-975 | `deserializeDecimal` reads an integer of at most 18 bytes as that value with scale 0 |
| `DecimalCodec.ReadNumberInteger` | library/src/main/java/com/dslplatform/json/NumberConverter.java:1095-1132 | round trip: `deserializeNumber` reads what `serialize(long)` writes, up to 18 bytes, back as a `Long` of the same value |
| `DecimalCodec.DecimalRoundTrip` | library/src/main/java/com/dslplatform/json/NumberConverter.java:931-1003 | round trip: the plain `toString()` of a decimal, up to 18 bytes, is read back with the same unscaled value and scale, and the cursor stops after it |
| `DecimalCodec.SerializeDecimal` | library/src/main/java/com/dslplatform/json/NumberConverter.java:931-933 | appends the decimal's `toString()` |
| `DecimalCodec.SerializeNullableDecimal` | library/src/main/java/com/dslplatform/json/NumberConverter.java:923-929 | `null` for a missing decimal (or the error of `writeNull`), its `toString()` otherwise |
| `LegacyNumbers.DigitsLayout` | src/main/java/com/dslplatform/json/NumberConverter.java:80-83 | entry `i` of the older `Digits` table holds the tens digit in bits 8-15, the units digit in bits 0-7, and bit 16 exactly below 10 |
| `LegacyNumbers.BuildDigits` | src/main/java/com/dslplatform/json/NumberConverter.java:80-83 | the static initializer fills all 100 entries |
| `LegacyNumbers.Write2` | src/main/java/com/dslplatform/json/NumberConverter.java:104-108 | writes the two zero-padded digits of a number below 100 at `pos` |
| `LegacyNumbers.HundredsSplit` | src/main/java/com/dslplatform/json/NumberConverter.java:95-97 | `(q << 6) + (q << 5) + (q << 2)` is `100 * q`, so the four digits are the two pairs |
| `LegacyNumbers.Write4` | src/main/java/com/dslplatform/json/NumberConverter.java:91-102 | for any `int`: fails with an `IllegalArgumentException` above 9999 and with an index error for every negative value, in both cases writing nothing; otherwise writes its four zero-padded digits |
| `LegacyNumbers.Read4Write4` | src/main/java/com/dslplatform/json/NumberConverter.java:91-122 | the older `read4` gives back the value whose digits `write4` writes |
| `LegacyNumbers.Read2Write2` | src/main/java/com/dslplatform/json/NumberConverter.java:104-113 | the older `read2` gives back the value whose digits `write2` writes |
| `LegacyNumbers.PaddedSplit` | src/main/java/com/dslplatform/json/NumberConverter.java:483-491 | the last `w + j` digits are the `j` digits above the last `w`, then those `w` |
| `LegacyNumbers.PairsShortest` | src/main/java/com/dslplatform/json/NumberConverter.java:483-493 | the pairs written for a number, without the leading zero of a single-digit top pair, are its shortest form |
| `LegacyNumbers.PairStep` | src/main/java/com/dslplatform/json/NumberConverter.java:484-489 | one turn of the pair loop puts the next two digits in front of those already written |
| `LegacyNumbers.WritePairs` | src/main/java/com/dslplatform/json/NumberConverter.java:482-493 | the pair loop leaves the shortest decimal digits of the magnitude from the returned start up to `tmp[top]` |
| `LegacyNumbers.PairLoop` | src/main/java/com/dslplatform/json/NumberConverter.java:483-491 | the stores keep `tmp[charPos + 1..top + 1]` equal to the zero-padded low digits written so far, with the rest of the number still to write |
| `LegacyNumbers.StorePair` | src/main/java/com/dslplatform/json/NumberConverter.java:487-489 | one turn stores the tens and units digits of the pair in front of what is already there |
| `LegacyNumbers.PairsEnd` | src/main/java/com/dslplatform/json/NumberConverter.java:490-493 | when the loop stops, skipping `v >> 16` leaves the shortest digits |
| `LegacyNumbers.Pow10Widths` | src/main/java/com/dslplatform/json/NumberConverter.java:473 | ten digit positions hold every `int` magnitude and twenty every `long` magnitude |
| `LegacyNumbers.SerializeInt` | src/main/java/com/dslplatform/json/NumberConverter.java:467-495 | the bytes written for an `int` are exactly its decimal form, the `MIN_VALUE` literal included |
| `LegacyNumbers.SerializeLong` | src/main/java/com/dslplatform/json/NumberConverter.java:594-623 | the bytes written for a `long` are exactly its decimal form, the `MIN_VALUE` literal included |
| `LegacyReading.TrimmedEnd` | src/main/java/com/dslplatform/json/NumberConverter.java:133-136 | the end after dropping trailing `Character.isWhitespace` characters: all dropped ones are whitespace and the one before is not |
| `LegacyReading.ParseNumberGeneric` | src/main/java/com/dslplatform/json/NumberConverter.java:132-142 | the trimming loop ends as `TrimmedEnd` says, and the call succeeds iff the `BigDecimal` parser accepts the trimmed token |
| `LegacyReading.IntegralFromGeneric` | src/main/java/com/dslplatform/json/NumberConverter.java:671-675 | a value without a fractional scale gives its low 32 or 64 bits; a positive scale is an error |
| `LegacyReading.ParseIntegralGeneric` | src/main/java/com/dslplatform/json/NumberConverter.java:671-675 | `parseLongGeneric` returns what `IntegralFromGeneric` gives |
| `LegacyReading.DigitLoop` | src/main/java/com/dslplatform/json/NumberConverter.java:542-568 | the older int and long loops give a value of the integer's width |
| `LegacyReading.ReadIntegral` | src/main/java/com/dslplatform/json/NumberConverter.java:529-540 | `deserializeInt`/`deserializeLong` give a value of the integer's width |
| `LegacyReading.ParseIntegral` | src/main/java/com/dslplatform/json/NumberConverter.java:542-568 | `parsePositiveInt`, `parseNegativeInt` and the loops of `deserializeLong` return what `DigitLoop` gives |
| `LegacyReading.DeserializeIntegral` | src/main/java/com/dslplatform/json/NumberConverter.java:529-540 | `deserializeInt` and `deserializeLong` return what `ReadIntegral` gives |
| `LegacyReading.Exponent` | src/main/java/com/dslplatform/json/NumberConverter.java:755-763 | the exponent is an `int` |
| `LegacyReading.ParseExponent` | src/main/java/com/dslplatform/json/NumberConverter.java:755-763 | the exponent loop returns what `Exponent` gives |
| `LegacyReading.ParseFraction` | src/main/java/com/dslplatform/json/NumberConverter.java:739-766 | the fraction loop returns what `FractionDigits` gives |
| `LegacyReading.ParseDecimal` | src/main/java/com/dslplatform/json/NumberConverter.java:726-839 | `parsePositiveDecimal` and `parseNegativeDecimal` return what `WholeDigits` gives |
| `LegacyReading.DeserializeDecimal` | src/main/java/com/dslplatform/json/NumberConverter.java:705-724 | `deserializeDecimal` returns what `ReadDecimal` gives |
| `LegacyReading.DigitLoopWraps` | src/main/java/com/dslplatform/json/NumberConverter.java:542-568 | over digits, the loops compute the exact signed value and keep only its low 32 or 64 bits: no overflow is detected |
| `LegacyReading.WrapStep` | src/main/java/com/dslplatform/json/NumberConverter.java:546 | wrapping after each digit gives the same as wrapping once at the end |
| `LegacyReading.IntegralRoundTrip` | src/main/java/com/dslplatform/json/NumberConverter.java:467-568 | round trip: the older `deserializeInt`/`deserializeLong` read back the value whose decimal form `serialize` writes |
| `LegacyReading.IntWrapsSilently` | src/main/java/com/dslplatform/json/NumberConverter.java:542-554 | the text `2147483648` is read as the `int` -2147483648 |
| `LegacyReading.WholeRun` | src/main/java/com/dslplatform/json/NumberConverter.java:729-737 | digits before the point whose value fits a `long` are accumulated exactly |
| `LegacyReading.FractionRun` | src/main/java/com/dslplatform/json/NumberConverter.java:742-750 | digits after the point are accumulated exactly into the same unscaled value |
| `LegacyReading.ReadPlainDecimal` | src/main/java/com/dslplatform/json/NumberConverter.java:705-766 | a plain decimal of at most 18 characters: the digits on both sides of the point as the unscaled value, the fraction length as the scale |
| `LegacyReading.ExponentValue` | src/main/java/com/dslplatform/json/NumberConverter.java:755-763 | the written form of an exponent (a `+` before a positive one) is read back as that exponent in `int` arithmetic |
| `LegacyReading.WholeAtExponent` | src/main/java/com/dslplatform/json/NumberConverter.java:767-778 | an exponent right after the digits gives scale `-exp` |
| `LegacyReading.FractionAtExponent` | src/main/java/com/dslplatform/json/NumberConverter.java:752-764 | an exponent after the fraction gives scale `ep - dp - exp` |
| `LegacyReading.ReadBareScientific` | src/main/java/com/dslplatform/json/NumberConverter.java:705-778 | one digit and an exponent read as that digit with scale `-exp` |
| `LegacyReading.ReadPointScientific` | src/main/java/com/dslplatform/json/NumberConverter.java:705-766 | `d.ddd` and an exponent read as the digits with scale `digits after the point - exp` |
| `LegacyReading.ReadIntegerDecimal` | src/main/java/com/dslplatform/json/NumberConverter.java:705-738 | an integer of at most 18 characters reads as that value with scale 0 |
| `LegacyReading.ScientificForm` | src/main/java/com/dslplatform/json/NumberConverter.java:701-703 | `toString()` in scientific notation is the first digit, the others after a point, `E` and a non-zero exponent |
| `LegacyReading.ToStringRoundTrip` | src/main/java/com/dslplatform/json/NumberConverter.java:701-839 | round trip: whatever `toString()` gives for a decimal, up to 18 characters, plain or scientific, is read back with the same unscaled value and scale |
| `LegacyReading.TrailingSpaceExponent` | src/main/java/com/dslplatform/json/NumberConverter.java:760-778 | as written, `1e5 ` (with a trailing space) reads as 1E+100000: the exponent loop hands the whole token to the `BigDecimal` parser and takes its value as the exponent |
| `LegacyReading.ToStringEndsInDigit` | src/main/java/com/dslplatform/json/NumberConverter.java:701-703 | `toString()` always ends in a digit |
| `LegacyReading.TrimmedRoundTrip` | src/main/java/com/dslplatform/json/NumberConverter.java:705-778 | with trailing whitespace dropped before the loops, the written form of a decimal followed by any whitespace reads back as the same decimal |
| `DateLayout.StoreDate` | java8/src/main/java/com/dslplatform/json/JavaTimeConverter.java:483-487 | stores `YYYY-MM-DD` at the given position, each field zero-padded, and changes no other byte |
| `DateLayout.StoreClock` | java8/src/main/java/com/dslplatform/json/JavaTimeConverter.java:191-195 | stores `HH:MM:SS` at the given position and changes no other byte |
| `DateLayout.StoreDateTime` | java8/src/main/java/com/dslplatform/json/JavaTimeConverter.java:139-150 | stores the quote, the date, `T` and the clock at the given position and changes no other byte |
| `JavaTime.DateOf` | java8/src/main/java/com/dslplatform/json/JavaTimeConverter.java:499 | `LocalDate.of` gives the date exactly when year, month and day form a valid ISO date, and fails with `DateTimeException` otherwise |
| `JavaTime.TimeOf` | java8/src/main/java/com/dslplatform/json/JavaTimeConverter.java:369 | `LocalTime.of` gives the time exactly when the fields are within range, and fails otherwise |
| `JavaTime.OfHoursMinutes` | java8/src/main/java/com/dslplatform/json/JavaTimeConverter.java:304 | `ZoneOffset.ofHoursMinutes` gives `hours * 3600 + minutes * 60` seconds, within 18 hours, and only when the minutes do not take the other sign than the hours |
| `JavaTimeConverter.WriteNano` | java8/src/main/java/com/dslplatform/json/JavaTimeConverter.java:160-185 | stores `.` and the nine-digit fraction with its trailing zeros dropped, returns that length (2 to 10, the dot included) and keeps every byte before the offset and after the stored digits |
| `JavaTimeConverter.FractionOfGroups` | java8/src/main/java/com/dslplatform/json/JavaTimeConverter.java:163-182 | the digits `writeNano` keeps after trimming at most two zeros of its last group of three are exactly the nine-digit fraction with all trailing zeros removed |
| `JavaTimeConverter.NanoTextLength` | java8/src/main/java/com/dslplatform/json/JavaTimeConverter.java:160-185 | the fraction text is empty for zero nanoseconds and otherwise 2 to 10 bytes, never more than the stored digits |
| `JavaTimeConverter.SerializeLocalDate` | java8/src/main/java/com/dslplatform/json/JavaTimeConverter.java:466-490 | a negative year fails with "Negative dates are not supported." and writes nothing; years up to 9999 append `"YYYY-MM-DD"` (12 bytes); larger years append the unpadded decimal fields separated by `-` |
| `JavaTimeConverter.SerializeLocalTime` | java8/src/main/java/com/dslplatform/json/JavaTimeConverter.java:187-205 | as written (18 bytes reserved): appends `"HH:MM:SS"` and the trimmed fraction when the reserve covers it, and fails with an index out of bounds, writing nothing, exactly when the buffer ends first |
| `JavaTimeConverter.LocalTimeReserveTooSmall` | java8/src/main/java/com/dslplatform/json/JavaTimeConverter.java:187-205 | 12:13:14.123456789 takes 20 bytes, and a 20-byte writer at position 1 cannot hold it with 18 reserved, while it can with 20 |
| `JavaTimeConverter.SerializeLocalTimeReserved` | java8/src/main/java/com/dslplatform/json/JavaTimeConverter.java:187-205 | with 20 bytes reserved, always appends exactly the quoted time text |
| `JavaTimeConverter.ReservedTimeFits` | java8/src/main/java/com/dslplatform/json/JavaTimeConverter.java:187-205 | a reserve of 20 bytes covers every time at every position |
| `JavaTimeConverter.SerializeOffsetTime` | java8/src/main/java/com/dslplatform/json/JavaTimeConverter.java:207-223 | appends the quoted time text followed by `ZoneOffset.getId()` |
| `JavaTimeConverter.WriteTimezone` | java8/src/main/java/com/dslplatform/json/JavaTimeConverter.java:260-264 | advances past the bytes already stored, then appends the zone id and the closing quote |
| `JavaTimeConverter.SerializeLocalDateTime` | java8/src/main/java/com/dslplatform/json/JavaTimeConverter.java:225-258 | a negative year fails with "Negative dates are not supported."; years up to 9999 append `"YYYY-MM-DDTHH:MM:SS"` and the trimmed fraction; larger years append the `toString()` text in quotes |
| `JavaTimeConverter.SerializeOffsetDateTime` | java8/src/main/java/com/dslplatform/json/JavaTimeConverter.java:127-158 | the same layout as the local date-time followed by `ZoneOffset.getId()` before the closing quote; negative years fail, years above 9999 write `toString()` in quotes |
| `JavaTimeReading.AllDigitsScan` | java8/src/main/java/com/dslplatform/json/JavaTimeConverter.java:266-271 | `allDigits(buffer, start, end)` is true exactly when every character in `[start, end)` lies in `'0'..'9'` |
| `JavaTimeReading.ReadNanos` | java8/src/main/java/com/dslplatform/json/JavaTimeConverter.java:315-336 | reads `min(k, 9)` characters after `offset` (nine when `k` is 0 or above 8), weighting the i-th by 10^(9-i); fails with an index out of bounds only when those characters run past the buffer |
| `JavaTimeReading.ReadNanosValue` | java8/src/main/java/com/dslplatform/json/JavaTimeConverter.java:315-336 | on one to nine digits `d`, `readNanos` is the value of `d` times 10^(9 - |d|), below one second |
| `JavaTimeReading.DeserializeLocalDate` | java8/src/main/java/com/dslplatform/json/JavaTimeConverter.java:492-522 | `YYYY-MM-DD` and the short forms of length 8 and 9 read their fields at fixed positions through `LocalDate.of`; any other length falls back to the JDK parser |
| `JavaTimeReading.DeserializeLocalTime` | java8/src/main/java/com/dslplatform/json/JavaTimeConverter.java:360-375 | for more than seven characters with `:` at 2 and 5 and digits from 9 on, reads the clock and an optional fraction through `LocalTime.of`; otherwise falls back to the JDK parser |
| `JavaTimeReading.DeserializeLocalDateTime` | java8/src/main/java/com/dslplatform/json/JavaTimeConverter.java:338-358 | for 19 to 29 characters in the date-time layout with digits from 20 on, reads the fields and an optional fraction through `LocalDateTime.of`; otherwise falls back |
| `JavaTimeReading.ParseOffsetDateTime` | java8/src/main/java/com/dslplatform/json/JavaTimeConverter.java:273-313 | the `Z` path (20 to 30 characters) gives a UTC value; the `±HH:MM` path (23 to 35 characters) builds the offset first, then the date-time; anything else falls back to the JDK parser; `deserializeDateTime` as written is this with unsigned offset minutes (`DeserializeDateTime`), the corrected one signs them (`DeserializeDateTimeSigned`) |
| `JavaTimeReading.ParseOffsetTime` | java8/src/main/java/com/dslplatform/json/JavaTimeConverter.java:377-408 | the same two paths for `HH:MM:SS` times: `Z` for 9 to 19 characters, `±HH:MM` for 12 to 24; `DeserializeOffsetTime` is the as-written instance and `DeserializeOffsetTimeSigned` the corrected one |
| `JavaTimeRoundTrip.ReadNanosWriteNano` | java8/src/main/java/com/dslplatform/json/JavaTimeConverter.java:160-185 | `readNanos` over the digits `writeNano` wrote gives back the nanoseconds |
| `JavaTimeRoundTrip.LocalDateRoundTrip` | java8/src/main/java/com/dslplatform/json/JavaTimeConverter.java:466-522 | every date in years 0 to 9999 reads back from the characters between the quotes `serialize(LocalDate)` writes |
| `JavaTimeRoundTrip.ShortDateForm` | java8/src/main/java/com/dslplatform/json/JavaTimeConverter.java:500-504 | `YYYY-M-D` reads as the date with that one-digit month and day |
| `JavaTimeRoundTrip.ShortMonthForm` | java8/src/main/java/com/dslplatform/json/JavaTimeConverter.java:505-511 | `YYYY-M-DD` reads as the date with that one-digit month |
| `JavaTimeRoundTrip.ShortDayForm` | java8/src/main/java/com/dslplatform/json/JavaTimeConverter.java:505-518 | `YYYY-MM-D` reads as the date with that one-digit day |
| `JavaTimeRoundTrip.LocalTimeRoundTrip` | java8/src/main/java/com/dslplatform/json/JavaTimeConverter.java:187-205 | every time reads back from the text `serialize(LocalTime)` writes |
| `JavaTimeRoundTrip.LocalDateTimeRoundTrip` | java8/src/main/java/com/dslplatform/json/JavaTimeConverter.java:225-258 | every date-time in years 0 to 9999 reads back from the text `serialize(LocalDateTime)` writes |
| `JavaTimeRoundTrip.OffsetDateTimeUtcRoundTrip` | java8/src/main/java/com/dslplatform/json/JavaTimeConverter.java:273-289 | a UTC date-time, written with its `Z`, reads back by the `Z` path |
| `JavaTimeRoundTrip.OffsetSuffixAt` | java8/src/main/java/com/dslplatform/json/JavaTimeConverter.java:290-304 | the `±HH:MM` that `getId()` writes for an offset of whole minutes reads back as that offset when the minutes take the offset's sign; as written it reads as `AsWrittenOffset` |
| `JavaTimeRoundTrip.OffsetDateTimeZoneRoundTrip` | java8/src/main/java/com/dslplatform/json/JavaTimeConverter.java:290-309 | a date-time with an offset of whole minutes reads back when the minutes take the sign; as written the result is the date-time with `AsWrittenOffset`, or its error |
| `JavaTimeRoundTrip.OffsetDateTimeRoundTrip` | java8/src/main/java/com/dslplatform/json/JavaTimeConverter.java:127-313 | every date-time in years 0 to 9999 with an offset of whole minutes reads back once the minutes take the sign; as written, whenever the offset is not negative or is a whole number of hours |
| `JavaTimeRoundTrip.OffsetTimeUtcRoundTrip` | java8/src/main/java/com/dslplatform/json/JavaTimeConverter.java:377-390 | a UTC time reads back by the `Z` path |
| `JavaTimeRoundTrip.OffsetTimeZoneRoundTrip` | java8/src/main/java/com/dslplatform/json/JavaTimeConverter.java:391-404 | a time with an offset of whole minutes reads back when the minutes take the sign; as written the result is the time with `AsWrittenOffset`, or its error |
| `JavaTimeRoundTrip.OffsetTimeRoundTrip` | java8/src/main/java/com/dslplatform/json/JavaTimeConverter.java:207-408 | every time with an offset of whole minutes reads back once the minutes take the sign; as written, whenever the offset is not negative or is a whole number of hours |
| `JodaTime.MillisText` | library/src/main/java/com/dslplatform/json/JodaTimeConverter.java:69-84 | nothing for a whole second, a dot and one digit for a multiple of 100 ms, a dot and three digits otherwise; read as a fraction of a second the digits give the milliseconds back |
| `JodaTime.ZoneTextValue` | library/src/main/java/com/dslplatform/json/JodaTimeConverter.java:88-111 | the text of a zone other than UTC is its offset's sign, `:` between two-digit hours and minutes, and those hours and minutes are the size of the offset cut down to whole minutes |
| `JodaTimeConverter.WriteTimezone` | library/src/main/java/com/dslplatform/json/JodaTimeConverter.java:88-111 | stores `Z"` for UTC and returns 2, otherwise stores the zone's `±HH:MM"` and returns 7 |
| `JodaTimeConverter.OffsetText` | library/src/main/java/com/dslplatform/json/JodaTimeConverter.java:96-107 | the hours and the remainder `writeTimezone` computes are the two fields of the zone's text, each below 100 |
| `JodaTimeConverter.MillisDigits` | library/src/main/java/com/dslplatform/json/JodaTimeConverter.java:73-77 | the hundreds digit followed by `write2` of the rest are the three padded digits of the milliseconds |
| `JodaTimeConverter.StoreMillis` | library/src/main/java/com/dslplatform/json/JodaTimeConverter.java:69-84 | stores the milliseconds' text after the seconds and returns its length (0, 2 or 4) |
| `JodaTimeConverter.SerializeDateTime` | library/src/main/java/com/dslplatform/json/JodaTimeConverter.java:53-86 | a year above 9999 fails with `IllegalArgumentException` and writes nothing; otherwise the writer gains exactly the quoted date, `T`, clock, milliseconds and zone |
| `JodaTimeConverter.SerializeLocalDate` | library/src/main/java/com/dslplatform/json/JodaTimeConverter.java:171-183 | a year above 9999 fails and writes nothing; otherwise the writer gains exactly `"YYYY-MM-DD"` |
| `JodaTimeConverter.MillisAt` | library/src/main/java/com/dslplatform/json/JodaTimeConverter.java:126-138 | one digit for 22 characters, two for 23, three otherwise; the three-digit read fails when the buffer ends before index 22 |
| `JodaTimeConverter.DeserializeDateTime` | library/src/main/java/com/dslplatform/json/JodaTimeConverter.java:113-145 | 19 to 24 characters ending in `Z` with the separators in place give a valid UTC date-time or the constructor's error; any other text goes to the parser unchanged |
| `JodaTimeConverter.DeserializeLocalDate` | library/src/main/java/com/dslplatform/json/JodaTimeConverter.java:185-196 | ten characters with `-` at 4 and 7 give a valid date or the constructor's error; any other text goes to the parser unchanged |
| `JodaTimeRoundTrip.FieldsAt` | library/src/main/java/com/dslplatform/json/JodaTimeConverter.java:117-125 | the date and the clock of a written date-time pass the separator test and read back field by field |
| `JodaTimeRoundTrip.MillisThenZulu` | library/src/main/java/com/dslplatform/json/JodaTimeConverter.java:126-141 | the milliseconds and `Z` a UTC date-time ends with select the right branch and read back as the milliseconds |
| `JodaTimeRoundTrip.DateTimeUtcRoundTrip` | library/src/main/java/com/dslplatform/json/JodaTimeConverter.java:53-145 | every UTC date-time in years 0 to 9999 reads back from the characters between the quotes `serialize(DateTime)` writes |
| `JodaTimeRoundTrip.DateTimeZoneFallback` | library/src/main/java/com/dslplatform/json/JodaTimeConverter.java:88-143 | a date-time in any other zone is written ending in its offset's minutes, so `deserializeDateTime` hands it to the parser |
| `JodaTimeRoundTrip.LocalDateRoundTrip` | library/src/main/java/com/dslplatform/json/JodaTimeConverter.java:171-196 | every date in years 0 to 9999 reads back from the characters between the quotes `serialize(LocalDate)` writes |
| `LegacyJodaConverter.StoreZone` | src/main/java/com/dslplatform/json/JodaTimeConverter.java:85-105 | stores `Z"` for UTC or the zone's `±HH:MM"` with the older `write2`, and returns the count |
| `LegacyJodaConverter.WriteTimezone` | src/main/java/com/dslplatform/json/JodaTimeConverter.java:85-108 | `writeBuffer` hands over everything stored before the zone followed by the zone's text and the quote |
| `LegacyJodaConverter.StoreMillis` | src/main/java/com/dslplatform/json/JodaTimeConverter.java:68-82 | stores the milliseconds' text with the older `write2` and returns its length |
| `LegacyJodaConverter.StoreDate` | src/main/java/com/dslplatform/json/JodaTimeConverter.java:54-61 | stores the quote and `YYYY-MM-DD` from the start of `tmp`; a year above 9999 fails |
| `LegacyJodaConverter.SerializeDateTime` | src/main/java/com/dslplatform/json/JodaTimeConverter.java:53-83 | a year above 9999 fails and hands nothing over; otherwise the bytes handed over are exactly the string the library version appends |
| `LegacyJodaConverter.SerializeLocalDate` | src/main/java/com/dslplatform/json/JodaTimeConverter.java:168-179 | a year above 9999 fails; otherwise the twelve bytes handed over are `"YYYY-MM-DD"` |
| `GeomConverter.WriteAttribute` | library/src/main/java/com/dslplatform/json/AndroidGeomConverter.java:201-202 | appends the attribute's lead text and the shortest decimal of the value |
| `GeomConverter.SerializePoint` | library/src/main/java/com/dslplatform/json/JavaGeomConverter.java:137-143 | appends exactly `{"X":x,"Y":y}`, each coordinate in its shortest decimal form |
| `GeomConverter.SerializeRectangle` | library/src/main/java/com/dslplatform/json/AndroidGeomConverter.java:200-210 | appends exactly `{"X":left,"Y":top,"Width":w,"Height":h}`, with `w` and `h` the `int` differences of the edges |
| `GeomConverter.ReadAttributeInto` | library/src/main/java/com/dslplatform/json/AndroidGeomConverter.java:220-233 | one attribute (its name, a `:` or the colon error, its `int` value, the key tests) ends as `ReadAttribute` gives |
| `GeomConverter.ReadAttributes` | library/src/main/java/com/dslplatform/json/AndroidGeomConverter.java:212-251 | the attribute loop returns the coordinates and leaves the reader as `Attributes` gives, or fails as it does |
| `GeomConverter.DeserializePoint` | library/src/main/java/com/dslplatform/json/JavaGeomConverter.java:145-177 | returns the point and leaves the reader as `ReadPoint` gives |
| `GeomConverter.DeserializeRectangle` | library/src/main/java/com/dslplatform/json/AndroidGeomConverter.java:212-253 | returns the rectangle and leaves the reader as `ReadRect` gives |
| `GeomReading.ReadAttribute` | library/src/main/java/com/dslplatform/json/AndroidGeomConverter.java:220-233 | a read attribute moves the cursor forward and keeps every coordinate an `int` |
| `GeomReading.MoreAttributes` | library/src/main/java/com/dslplatform/json/AndroidGeomConverter.java:234-251 | the loop succeeds only on a closing `}`, which becomes `last`, and keeps every coordinate an `int` |
| `GeomReading.Attributes` | library/src/main/java/com/dslplatform/json/AndroidGeomConverter.java:212-251 | fails with the object-start error unless `last` is `{`; `{}` gives all zeros; on success the reader stands on `}` and every coordinate is an `int` |
| `GeomReading.ReadPoint` | library/src/main/java/com/dslplatform/json/JavaGeomConverter.java:145-177 | the object-start error unless `last` is `{`; `{}` is the origin; on success an `int` point and the reader on `}` |
| `GeomReading.ReadRect` | library/src/main/java/com/dslplatform/json/AndroidGeomConverter.java:212-253 | the object-start error unless `last` is `{`; `{}` is the empty rectangle at the origin; on success a rectangle of `int` edges and the reader on `}` |
| `Geometry.Assign` | library/src/main/java/com/dslplatform/json/AndroidGeomConverter.java:241-249 | with distinct keys, exactly the coordinates whose key equals the name ignoring case take the value |
| `Geometry.KeysDistinct` | library/src/main/java/com/dslplatform/json/AndroidGeomConverter.java:241-249 | no name matches two of `X`, `Y`, `Width`, `Height` ignoring case |
| `Geometry.RectOf` | library/src/main/java/com/dslplatform/json/AndroidGeomConverter.java:252 | `new Rect(x, y, x + width, y + height)` has the given corner, width and height, even where a sum wraps |
| `Geometry.RectOfDimensions` | library/src/main/java/com/dslplatform/json/AndroidGeomConverter.java:200-252 | a rectangle rebuilt from its corner, `width()` and `height()` is the same rectangle |
| `Geometry.SumThenDifference` | library/src/main/java/com/dslplatform/json/AndroidGeomConverter.java:252 | `(a + d) - a` in `int` arithmetic is `d` |
| `Geometry.DifferenceThenSum` | library/src/main/java/com/dslplatform/json/AndroidGeomConverter.java:252 | `a + (b - a)` in `int` arithmetic is `b` |
| `Geometry.SettleLast` | library/src/main/java/com/dslplatform/json/AndroidGeomConverter.java:220-250 | after the attributes are read in order, each coordinate holds the value of the last attribute named after its key, or its starting value |
| `Geometry.LastValueAt` | library/src/main/java/com/dslplatform/json/AndroidGeomConverter.java:234-250 | a later attribute overrides an earlier one with the same name |
| `Geometry.LastValueNone` | library/src/main/java/com/dslplatform/json/AndroidGeomConverter.java:216-219 | a coordinate no attribute names keeps its starting value |
| `Geometry.PointJsonIsObject` | library/src/main/java/com/dslplatform/json/JavaGeomConverter.java:137-143 | the point's text is the object of its two attributes |
| `Geometry.RectJsonIsObject` | library/src/main/java/com/dslplatform/json/AndroidGeomConverter.java:200-210 | the rectangle's text is the object of its four attributes |
| `GeomRoundTrip.AttributeRoundTrip` | library/src/main/java/com/dslplatform/json/AndroidGeomConverter.java:220-233 | a written attribute is read back into the coordinates, the cursor stopping just after it |
| `GeomRoundTrip.EmptyObjectRoundTrip` | library/src/main/java/com/dslplatform/json/AndroidGeomConverter.java:213-215 | `{}` reads as all zeros, the cursor just after `}` |
| `GeomRoundTrip.ObjectRoundTrip` | library/src/main/java/com/dslplatform/json/AndroidGeomConverter.java:212-251 | an object of written `int` attributes reads back as the attributes applied in order through the key tests, the cursor just after `}` |
| `GeomRoundTrip.ObjectLastValues` | library/src/main/java/com/dslplatform/json/AndroidGeomConverter.java:212-251 | with distinct keys, each coordinate read is the value of the last attribute named after its key, or 0 |
| `GeomRoundTrip.KeysReadBack` | library/src/main/java/com/dslplatform/json/AndroidGeomConverter.java:134-140 | the attribute names the serializers write read back as written |
| `GeomRoundTrip.PointRoundTrip` | library/src/main/java/com/dslplatform/json/JavaGeomConverter.java:137-177 | `deserializePoint` of either converter reads back the point `serializePoint` wrote, the cursor just after it |
| `GeomRoundTrip.RectRoundTrip` | library/src/main/java/com/dslplatform/json/AndroidGeomConverter.java:200-253 | `deserializeRectangle` reads back the rectangle `serializeRectangle` wrote, right and bottom edges included, overflow or not |
| `ObjectFormat.Fresh` | library/src/main/java/com/dslplatform/json/runtime/ObjectFormatDescription.java:82 | a new instance has every property unbound |
| `ObjectFormat.Find` | library/src/main/java/com/dslplatform/json/runtime/ObjectFormatDescription.java:118-122 | the slow path takes the first decoder whose full hash is the name's and, when it asks for an exact name, whose bytes are the name's; no earlier decoder matches |
| `ObjectFormat.BindValue` | library/src/main/java/com/dslplatform/json/runtime/ObjectFormatDescription.java:123-128 | binding keeps one slot per decoder |
| `ObjectFormat.SkipValue` | library/src/main/java/com/dslplatform/json/runtime/ObjectFormatDescription.java:172-179 | skipping an unknown member changes neither the instance nor the mask |
| `ObjectFormat.SlowMember` | library/src/main/java/com/dslplatform/json/runtime/ObjectFormatDescription.java:115-133 | one member on the slow path keeps one slot per decoder |
| `ObjectFormat.Close` | library/src/main/java/com/dslplatform/json/runtime/ObjectFormatDescription.java:158-170 | `finalChecks` on the last token never changes what was bound |
| `ObjectFormat.SlowFrom` | library/src/main/java/com/dslplatform/json/runtime/ObjectFormatDescription.java:115-156 | the slow path over the remaining members keeps one slot per decoder; `ObjectFormatProperties.SlowFromVerdict` states what it decides |
| `ObjectFormat.SlowAll` | library/src/main/java/com/dslplatform/json/runtime/ObjectFormatDescription.java:115-156 | decoding by the slow path alone, the reference for `bindContent` |
| `ObjectFormat.FastFrom` | library/src/main/java/com/dslplatform/json/runtime/ObjectFormatDescription.java:94-112 | the fast loop keeps one slot per decoder; `ObjectFormatProperties.FastIsSlow` states that it decides as the slow path does |
| `ObjectFormat.FinalChecks` | library/src/main/java/com/dslplatform/json/runtime/ObjectFormatDescription.java:158-165 | `finalChecks` keeps one slot per decoder |
| `ObjectFormat.BindContentAsWritten` | library/src/main/java/com/dslplatform/json/runtime/ObjectFormatDescription.java:87-113 | `bindContent` as written agrees with the corrected `BindContent` whenever there is at least one decoder |
| `ObjectFormat.BindContent` | library/src/main/java/com/dslplatform/json/runtime/ObjectFormatDescription.java:87-113 | the corrected `bindContent`: with no decoders, every member goes to the slow path, where it is skipped or reported as unknown |
| `ObjectFormat.ReadSpec` | library/src/main/java/com/dslplatform/json/runtime/ObjectFormatDescription.java:61-67 | `read` as written binds a fresh instance with `bindContent` as written; a decoded instance has one slot per decoder |
| `ObjectFormat.FindDecoder` | library/src/main/java/com/dslplatform/json/runtime/ObjectFormatDescription.java:118-122 | the decoder loop returns the index `Find` gives |
| `ObjectFormat.BindMember` | library/src/main/java/com/dslplatform/json/runtime/ObjectFormatDescription.java:115-133 | binds or skips one member in the array instance exactly as `SlowMember` says, and leaves the instance untouched on an error |
| `ObjectFormat.BindValueAt` | library/src/main/java/com/dslplatform/json/runtime/ObjectFormatDescription.java:123-128 | stores the value and AND-s in the decoder's mask as `BindValue` says; `null` for a `nonNull` property and a refused value leave the instance untouched |
| `ObjectFormat.BindObjectSlow` | library/src/main/java/com/dslplatform/json/runtime/ObjectFormatDescription.java:115-156 | the slow loop leaves the instance and reports the error that `SlowFrom` gives |
| `ObjectFormat.FinalCheck` | library/src/main/java/com/dslplatform/json/runtime/ObjectFormatDescription.java:158-170 | `finalChecks` leaves the instance and reports the error that `FinalChecks` gives |
| `ObjectFormat.BindContentLoop` | library/src/main/java/com/dslplatform/json/runtime/ObjectFormatDescription.java:87-113 | the fast loop leaves the instance and reports the error that `BindContentAsWritten` gives, including "Expecting '}' or ','" on the first member of an object read without decoders |
| `ObjectFormat.Bind` | library/src/main/java/com/dslplatform/json/runtime/ObjectFormatDescription.java:71-78 | anything but `{` fails with "Expecting '{'" and binds nothing; otherwise binds as `BindContentAsWritten` says |
| `ObjectFormat.Read` | library/src/main/java/com/dslplatform/json/runtime/ObjectFormatDescription.java:61-68 | `null` gives null, anything but `{` fails, and otherwise a fresh instance is decoded as `ReadSpec` (`read` as written) says |
| `ObjectFormatProperties.FindPrepared` | library/src/main/java/com/dslplatform/json/runtime/ObjectFormatDescription.java:115-122 | with prepared decoders, the slow path finds a decoder under its own name |
| `ObjectFormatProperties.FastIsSlow` | library/src/main/java/com/dslplatform/json/runtime/ObjectFormatDescription.java:94-156 | from any property on, the fast loop decides and binds exactly as the slow path does from the same member |
| `ObjectFormatProperties.BindContentIsSlow` | library/src/main/java/com/dslplatform/json/runtime/ObjectFormatDescription.java:87-113 | the corrected `bindContent` is the slow path over the whole object; as written it is too whenever there is a decoder, and without decoders it fails on the first member with "Expecting '}' or ','" |
| `ObjectFormatProperties.SlowStep` | library/src/main/java/com/dslplatform/json/runtime/ObjectFormatDescription.java:134-154 | an accepted member is stored and its mask AND-ed in; any other member stops decoding with an error |
| `ObjectFormatProperties.SlowFromVerdict` | library/src/main/java/com/dslplatform/json/runtime/ObjectFormatDescription.java:115-170 | the slow path succeeds exactly when all remaining members are accepted, the object is closed and no mandatory bit is left, and it then stores the members in order |
| `ObjectFormatProperties.ReadVerdict` | library/src/main/java/com/dslplatform/json/runtime/ObjectFormatDescription.java:61-113 | `read` as written decodes `{...}` exactly when the description has a decoder or the object no member, every member is accepted (its decoder takes the value, or unknown properties are skipped), the object is closed and every mandatory property was seen; each property then holds what storing the members in order leaves |
| `ObjectFormatProperties.CorrectedVerdict` | library/src/main/java/com/dslplatform/json/runtime/ObjectFormatDescription.java:87-113 | the corrected `bindContent` accepts an object exactly when every member is accepted, the object is closed and every mandatory property was seen, with or without decoders; each property then holds what storing the members in order leaves |
| `ObjectFormatProperties.StoredLastWins` | library/src/main/java/com/dslplatform/json/runtime/ObjectFormatDescription.java:127-147 | after storing members in order, the slot of a decoder holds the value of the last member whose lookup finds that decoder, whatever earlier members stored there |
| `ObjectFormatProperties.StoredUntouched` | library/src/main/java/com/dslplatform/json/runtime/ObjectFormatDescription.java:127-147 | a slot whose decoder no member's lookup finds keeps what it held |
| `ObjectFormatProperties.ReadLastWins` | library/src/main/java/com/dslplatform/json/runtime/ObjectFormatDescription.java:61-147 | in an object `read` decodes, each property holds the value of the last member bound to it, and a property no member names stays unbound |
| `ObjectFormatProperties.NoDecodersRefuseMembers` | library/src/main/java/com/dslplatform/json/runtime/ObjectFormatDescription.java:87-113 | without decoders and with unknown properties skipped, `{"a":1}` fails as written with "Expecting '}' or ','", and the corrected version accepts it |
| `StructInfo.NameBytes` | library/src/main/java/com/dslplatform/json/processor/StructInfo.java:107-110 | one byte per character: the character cut to a signed byte |
| `StructInfo.CalcHash` | library/src/main/java/com/dslplatform/json/processor/StructInfo.java:107-115 | the loop returns the 32-bit FNV-1a hash of the name's bytes |
| `StructInfo.PlainEscapes` | library/src/main/java/com/dslplatform/json/processor/StructInfo.java:107-115 | a printable ASCII name without quote or backslash needs no escaping: the writer copies its hashed bytes |
| `StructInfo.PlainNameWritten` | library/src/main/java/com/dslplatform/json/processor/StructInfo.java:107-115 | such a name is written as its hashed bytes between quotes |
| `StructInfo.AltHashes` | library/src/main/java/com/dslplatform/json/processor/StructInfo.java:142-148 | the alternative names counted are those whose hash differs from the attribute's own |
| `StructInfo.CheckHashCollision` | library/src/main/java/com/dslplatform/json/processor/StructInfo.java:133-152 | true exactly when some attribute has alternative names and two of the hashes (each attribute's own, then its differing alternatives') are equal |
| `StructInfo.AddAttribute` | library/src/main/java/com/dslplatform/json/processor/StructInfo.java:137-149 | one attribute's hashes keep the loop state: the duplicate flag says whether a hash repeats, and the set holds the hashes seen |
| `StructInfo.AddHash` | library/src/main/java/com/dslplatform/json/processor/StructInfo.java:139 | `counters.add` reports a hash seen before |
| `StructInfo.AddAlternatives` | library/src/main/java/com/dslplatform/json/processor/StructInfo.java:142-148 | the inner loop adds the alternatives' hashes that differ from the attribute's own |
| `StructInfo.Decimal` | library/src/main/java/com/dslplatform/json/processor/StructInfo.java:209 | `Integer.toString` of a natural number has at least one digit, two from 10 on |
| `StructInfo.DecimalInjective` | library/src/main/java/com/dslplatform/json/processor/StructInfo.java:209 | different numbers give different digits, so each candidate short name is tried once |
| `StructInfo.BuildShortName` | library/src/main/java/com/dslplatform/json/processor/StructInfo.java:196-215 | a name not yet taken, which is then taken; it starts with the attribute's first character, and is that character alone exactly when that was free; counters of other characters are unchanged |
| `StructInfo.FreeCandidate` | library/src/main/java/com/dslplatform/json/processor/StructInfo.java:208-211 | the search stops at the first free candidate `first + n` from the counter on, every candidate before it taken |
| `StructInfo.Insert` | library/src/main/java/com/dslplatform/json/processor/StructInfo.java:181-188 | insertion keeps the elements |
| `StructInfo.InsertSorted` | library/src/main/java/com/dslplatform/json/processor/StructInfo.java:181-188 | insertion into a sorted list keeps it sorted: unindexed attributes last, the rest by ascending index |
| `StructInfo.SortByIndex` | library/src/main/java/com/dslplatform/json/processor/StructInfo.java:180-188 | the sorted attributes are a permutation of the attributes, in the comparator's order |
| `StructInfo.ChooseConstructor` | library/src/main/java/com/dslplatform/json/processor/StructInfo.java:66-78 | the annotated constructor; else none without matching constructors; else the only one; else the first without parameters, or none when every one has some |
| `StructInfo.Distinct` | library/src/main/java/com/dslplatform/json/processor/StructInfo.java:64 | the `LinkedHashSet` holds each format once, the same formats, the first one first |
| `StructInfo.Formats` | library/src/main/java/com/dslplatform/json/processor/StructInfo.java:64 | `{OBJECT}` when no formats are given; otherwise the given formats, each once |
| `StructInfo.ObjectFormatFirst` | library/src/main/java/com/dslplatform/json/processor/StructInfo.java:65 | object format comes first without formats, with an empty list, or when the list starts with it |
| `StructInfo.Info.constructor` | library/src/main/java/com/dslplatform/json/processor/StructInfo.java:37-79 | a class without attributes or minified names, with its formats, object-format flag and constructor chosen as above |
| `StructInfo.Info.SortAttributes` | library/src/main/java/com/dslplatform/json/processor/StructInfo.java:174-194 | without an index of at least 0 nothing changes; otherwise the attributes are permuted into sorted order; the minified names are kept |
| `StructInfo.Info.PrepareMinifiedNames` | library/src/main/java/com/dslplatform/json/processor/StructInfo.java:154-172 | every attribute gets a minified name: its alias if it has one; otherwise a name that starts with its id's first character, is no alias, and is no other such attribute's; other entries are kept |
| `StructInfo.RecordAliases` | library/src/main/java/com/dslplatform/json/processor/StructInfo.java:158-164 | the first loop records every alias under its attribute's id and collects the ids and the aliases |
| `StructInfo.ShortNames` | library/src/main/java/com/dslplatform/json/processor/StructInfo.java:165-171 | the second loop gives each attribute without an alias a distinct short name that is no alias, leaving the aliases in place |
| `StructInfo.ShortNameAt` | library/src/main/java/com/dslplatform/json/processor/StructInfo.java:166-170 | one step of that loop keeps its invariant |
| `Analysis.Box` | library/src/main/java/com/dslplatform/json/processor/Analysis.java:1090-1100 | only the eight primitive names have a box, and each box is a longer `java.lang` name |
| `Analysis.ObjectName` | library/src/main/java/com/dslplatform/json/processor/Analysis.java:1090-1100 | a primitive name becomes its box, any other name stays, and the result is never a primitive name |
| `Analysis.ObjectNameIdempotent` | library/src/main/java/com/dslplatform/json/processor/Analysis.java:1090-1100 | boxing twice is boxing once |
| `Analysis.PrefixLength` | library/src/main/java/com/dslplatform/json/processor/Analysis.java:2035-2053 | a stripped prefix (`is` for booleans, `get`/`set`) is followed by an upper-case letter |
| `Analysis.BeanOrActualName` | library/src/main/java/com/dslplatform/json/processor/Analysis.java:2035-2053 | without an accessor prefix the name stays; otherwise the prefix is stripped, the rest keeps its letters up to case; an all-upper-case rest of two letters or more is kept unchanged, and otherwise only its first letter is lowered |
| `Analysis.CorrectCasing` | processor/src/test/java/com/dslplatform/json/ValidationTest.java:135-142 | `getU` names `u` and `getURI` names `URI` |
| `Analysis.BooleanPrefix` | library/src/main/java/com/dslplatform/json/processor/Analysis.java:2037-2043 | `isActive` names `active` for a boolean and stays `isActive` otherwise |
| `Analysis.InvalidCharAt` | library/src/main/java/com/dslplatform/json/processor/Analysis.java:508-514 | the first control character, quote, backslash or non-ASCII character of the discriminator, or -1 exactly when there is none |
| `Analysis.CheckMixin` | library/src/main/java/com/dslplatform/json/processor/Analysis.java:505-549 | an error exactly when the discriminator has an invalid character, an implementation has an attribute named like it, two implementations share a name, or a name has a quote or backslash |
| `Analysis.DuplicateStep` | library/src/main/java/com/dslplatform/json/processor/Analysis.java:534-540 | an implementation is a duplicate exactly when its name was seen |
| `Analysis.EscapeStep` | library/src/main/java/com/dslplatform/json/processor/Analysis.java:541-547 | a quote or backslash is reported only for a name not seen before |
| `Analysis.CheckArrayIndexes` | library/src/main/java/com/dslplatform/json/processor/Analysis.java:592-611 | an error exactly when, with more than one attribute created from an empty instance, some attribute has no index, or two indexed attributes share an index |
| `Context.NonGenericObject` | java8/src/main/java/com/dslplatform/json/processor/Context.java:76-81 | the boxed name up to its first `<` |
| `Context.TypeOrClass` | java8/src/main/java/com/dslplatform/json/processor/Context.java:83-88 | a class literal exactly for the object type itself or a name without type arguments; a type token otherwise |
| `Context.RawArrayType` | java8/src/main/java/com/dslplatform/json/processor/Context.java:50-55 | the array's element type name, without type arguments |
| `Context.GetDefault` | java8/src/main/java/com/dslplatform/json/processor/Context.java:36-74 | a mapped default wins; a nullable attribute is `null`; a not-null one takes its inlined converter's default, an empty array, an empty list, set or map, or `null` when nothing applies |
| `Context.CollectionPrefixesExclusive` | java8/src/main/java/com/dslplatform/json/processor/Context.java:56-61 | at most one of the empty-collection defaults fits a type name |
| `Context.NotOwn` | java8/src/main/java/com/dslplatform/json/processor/Context.java:93-96 | the inherited attributes whose id is none of the class's own, each kept once |
| `Context.Move` | java8/src/main/java/com/dslplatform/json/processor/Context.java:115-118 | `remove(i)` then `add(at, x)` shifts the elements between `at` and `i` up by one |
| `Context.MoveMultiset` | java8/src/main/java/com/dslplatform/json/processor/Context.java:115-118 | moving keeps the elements |
| `Context.FindName` | java8/src/main/java/com/dslplatform/json/processor/Context.java:111-123 | the first attribute from `firstNonSet` on with the parameter's name, or the end |
| `Context.LeadingIndexed` | java8/src/main/java/com/dslplatform/json/processor/Context.java:105-109 | `firstNonSet` is the first attribute without an index |
| `Context.Collect` | java8/src/main/java/com/dslplatform/json/processor/Context.java:91-97 | the class's attributes followed by the inherited ones it does not override |
| `Context.SortedAttributes` | java8/src/main/java/com/dslplatform/json/processor/Context.java:90-127 | a permutation of the collected attributes: the indexed ones first, sorted, then the attributes named by the constructor's parameters in parameter order, then the rest, where no parameter's name is left |
| `Context.PlaceParameters` | java8/src/main/java/com/dslplatform/json/processor/Context.java:110-124 | the parameter loop keeps the elements and the indexed prefix and places each found parameter's attribute in order |
| `Context.PlaceParameter` | java8/src/main/java/com/dslplatform/json/processor/Context.java:111-123 | one parameter keeps the loop's invariant |
| `Context.PlacedFound` | java8/src/main/java/com/dslplatform/json/processor/Context.java:114-120 | a found attribute moved to `firstNonSet` extends the placed block |
| `Context.PlacedMissing` | java8/src/main/java/com/dslplatform/json/processor/Context.java:110-124 | a parameter no attribute is named after moves nothing |
| `Context.UnindexedTail` | java8/src/main/java/com/dslplatform/json/processor/Context.java:98-109 | in sorted order, every attribute from the first unindexed one on is unindexed |
| `DslJson.IsNull` | library/src/main/java/com/dslplatform/json/DslJson.java:575-581 | true exactly for a body of size four holding `null` |
| `DslJson.IsNullExactly` | library/src/main/java/com/dslplatform/json/DslJson.java:575-581 | a whole body is `null` exactly when it is the literal |
| `DslJson.SimpleStringCache.constructor` | library/src/main/java/com/dslplatform/json/DslJson.java:400-407 | `2^log2Size` slots, at least two, all empty |
| `DslJson.SimpleStringCache.Slot` | library/src/main/java/com/dslplatform/json/DslJson.java:425 | the slot is within the mask |
| `DslJson.SimpleStringCache.Get` | library/src/main/java/com/dslplatform/json/DslJson.java:419-433 | a string with the given characters; the instance in its slot when that one has the same characters, else a new one that takes the slot; no other slot changes |
| `DslJson.SimpleStringCache.CreateAndPut` | library/src/main/java/com/dslplatform/json/DslJson.java:435-439 | a new string in the given slot, the others unchanged |
| `DslJson.RepeatedGet` | library/src/main/java/com/dslplatform/json/DslJson.java:419-433 | two lookups of the same characters give the same instance |
| `DslJson.FirstAccepting` | library/src/main/java/com/dslplatform/json/DslJson.java:717-724 | the first factory that creates a reader for the type, none before it |
| `DslJson.ReaderRegistry.TryFindReader` | library/src/main/java/com/dslplatform/json/DslJson.java:714-726 | the registered reader; otherwise the first one a factory creates, which is registered; nothing is registered when none does |
| `DslJson.MapEmpty` | library/src/main/java/com/dslplatform/json/DslJson.java:781-799 | an empty map is written as `{}` |
| `DslJson.EntryOfPlainKey` | library/src/main/java/com/dslplatform/json/DslJson.java:787-789 | a member with a plain ASCII key is `"key":` followed by the value's bytes |
| `DslJson.MapOfPlainKey` | library/src/main/java/com/dslplatform/json/DslJson.java:781-798 | a one-entry map with a plain ASCII key is `{"key":value}` |
| `DslJson.MembersOkIffKeys` | library/src/main/java/com/dslplatform/json/DslJson.java:785-796 | the members can be written exactly when every key among them can |
| `DslJson.MapOkIffKeys` | library/src/main/java/com/dslplatform/json/DslJson.java:781-799 | `serializeMap` succeeds exactly when every key can be written by `writeString` |
| `DslJson.MembersErrExtends` | library/src/main/java/com/dslplatform/json/DslJson.java:790-796 | a key that cannot be written fails every longer run of members with its error |
| `DslJson.MembersPrefixExtend` | library/src/main/java/com/dslplatform/json/DslJson.java:790-796 | the first `n` members do not depend on the entries after them |
| `DslJson.MapSnoc` | library/src/main/java/com/dslplatform/json/DslJson.java:790-796 | an entry later in iteration order adds a comma and its member just before the closing brace |
| `DslJson.WriteValue` | library/src/main/java/com/dslplatform/json/DslJson.java:2181-2188 | `serialize(writer, value)`: `null` for a null value, otherwise the value's bytes; always succeeds from eight buffer bytes on |
| `DslJson.WriteEntry` | library/src/main/java/com/dslplatform/json/DslJson.java:787-789 | appends the quoted key, `:` and the value, or fails with the key's encoding error |
| `DslJson.WriteNextEntry` | library/src/main/java/com/dslplatform/json/DslJson.java:790-795 | one loop turn appends a comma and the next member |
| `DslJson.SerializeMap` | library/src/main/java/com/dslplatform/json/DslJson.java:781-799 | appends `{`, the members in iteration order separated by single commas, and `}`; from eight buffer bytes on it fails exactly when a key cannot be written |
| `Mixin.New` | library/src/main/java/com/dslplatform/json/runtime/MixinDescription.java:43-73 | fails exactly without descriptions or with an empty or quoted discriminator; otherwise the key (`$type` by default) with its hash and object start, exact matching exactly when two type hashes coincide, and each format flag exactly when some description has it |
| `Mixin.HashCount` | library/src/main/java/com/dslplatform/json/runtime/MixinDescription.java:60-71 | the set of type hashes is as large as the list exactly when no two hashes coincide |
| `Mixin.Dispatch` | library/src/main/java/com/dslplatform/json/runtime/MixinDescription.java:76-90 | `null` gives null; `{` with object format and `[` with array format select it; anything else is the start error for the formats the mixin has |
| `Mixin.Select` | library/src/main/java/com/dslplatform/json/runtime/MixinDescription.java:103-105 | the first description with the format and the name's hash and, with exact matching, the name itself; none before it |
| `Mixin.Read` | library/src/main/java/com/dslplatform/json/runtime/MixinDescription.java:76-135 | a selected description is the first that decodes the name in the format the first byte selects; a name no description decodes is a configuration error in both formats; in object format a first token other than a quote, or a first key whose hash is not the discriminator's, is a discriminator error, a key not followed by `:` fails with "Expecting ':'" (checked before the hash), and a discriminator value that does not start with a quote fails with "Expecting '\"'" |
| `Mixin.EncoderOf` | library/src/main/java/com/dslplatform/json/runtime/MixinDescription.java:143-145 | the first description of the instance's class |
| `Mixin.ObjectBody` | library/src/main/java/com/dslplatform/json/runtime/MixinDescription.java:146-164 | the object starts with the discriminator pair and ends with `}`; with all properties and nothing written it is the pair and `}`; with minimal content the brace replaces the last byte |
| `Mixin.ArrayBody` | library/src/main/java/com/dslplatform/json/runtime/MixinDescription.java:165-177 | the array starts with the quoted name and ends with `]`, which follows the name directly exactly when there is no content |
| `Mixin.Write` | library/src/main/java/com/dslplatform/json/runtime/MixinDescription.java:138-181 | `null` for null; a configuration error exactly when no description has the instance's class; otherwise the object or array that description writes first |
| `Mixin.MinimalIsFull` | library/src/main/java/com/dslplatform/json/runtime/MixinDescription.java:150-164 | both object modes write the same bytes when the minimal content is the full content with the trailing comma |
| `Mixin.WrittenReadsBack` | library/src/main/java/com/dslplatform/json/runtime/MixinDescription.java:76-181 | for descriptions from distinct ASCII names, what `write` puts first (`{"<key>":"<name>"` or `["<name>"`) is read back by `read` as the description that wrote it |
| `Mixin.ObjectReadBack` | library/src/main/java/com/dslplatform/json/runtime/MixinDescription.java:93-110 | the discriminator key and a description's name select that description in object format |
| `Mixin.ArrayReadBack` | library/src/main/java/com/dslplatform/json/runtime/MixinDescription.java:116-132 | a description's name selects it in array format, followed by a comma or `]` |
| `Mixin.HeadBytes` | library/src/main/java/com/dslplatform/json/runtime/MixinDescription.java:146-148 | the pair written is the object start followed by the quoted name |
| `Mixin.SelectWritten` | library/src/main/java/com/dslplatform/json/runtime/MixinDescription.java:103-105 | a description's name selects that description in any format it has |
| `Mixin.NotDecodedEarlier` | library/src/main/java/com/dslplatform/json/runtime/MixinDescription.java:103-105 | an earlier description does not decode a later one's name: with exact matching the names differ, otherwise the hashes |
| `Mixin.LastNameOfAscii` | library/src/main/java/com/dslplatform/json/JsonReader.java:552-562 | `wasLastName` on an ASCII name's bytes holds for that name and no other |

## Left out

- `JsonReader.JsonReader.PrepareBuffer`: the copy of the input bytes into `chars` (JsonReader.java:211-216) is not modelled; only the buffer's capacity is part of the reader's state, and the number parsers read the bytes from the buffer.
- Input and output streams, the `positionInStream` part of error messages
  and the reader's state after an exception: an error result carries the
  exception's kind and message only.
- The element codecs (`ReadObject`, `WriteObject`) are code outside the
  core: the reader takes any step function that never moves the cursor back,
  and the writer's collection methods are modelled for string elements.
- `writeAscii(str, len)` and the other length-bounded writes: they are
  `writeAscii` on a prefix.
- `JsonWriter.JsonWriter.WriteString`: the `6 * len` capacity request is not
  checked for 32-bit overflow; strings are short enough in the model.
- `StringCodec.ParseStringRoundTrip`: assumes a `chars` buffer of at least
  two characters, as the library always allocates; with one character the
  fast path's hand-over re-reads a byte.
- `StringCodec.FourByteUnitDecodes`: the as-written decoding is stated for
  a `chars` buffer of at least three units. With a buffer of two units that
  are both taken, the buffer doubles to four and the third unit of a
  supplementary character falls outside it; the library allocates larger
  buffers, so that case is left out.
- Floating point: `double` and `float` reading and writing are not part of
  this model.
- The JDK's `BigDecimal` parser (`new BigDecimal(chars, 0, len)`) is a
  parameter (`Generic`): any function from the trimmed characters to a
  decimal or a parse failure.
- Error messages keep their text but not the positions they report.
- `readLongNumber`, which reads the rest of a number from a stream when the
  token runs to the end of the buffer (and stops at `9`, which it tests with
  `ch < '9'`): the model hands such a token to the `BigDecimal` parser as it
  stands in the buffer.
- The collection readers and writers of numbers
  (`deserializeIntCollection` and the like) are `deserializeCollection`
  with a number reader; they are not modelled separately.
- `serialize(short[])` and the older `serialize(int[])`/`serialize(long[])`
  write element after element through `writeByte` and `serialize`; they are
  not modelled separately from the library's array writers.
- `LegacyNumbers.SerializeInt`, `LegacyNumbers.SerializeLong`: return the
  bytes that `writeBuffer` copies to the writer rather than appending them
  to a writer object; the older `JsonWriter` is not part of this model.
- `LegacyReading.DeserializeIntegral`, `LegacyReading.DeserializeDecimal`:
  take the character buffer and length the older `readNumber()` produces;
  the older `JsonReader` is not part of this model.
- `DecimalCodec.DecimalRoundTrip`, `LegacyReading.ToStringRoundTrip`: tokens
  longer than 18 characters go to the `BigDecimal` parser, whose results are
  not known to the model.
- `JsonReader.JsonReader.ReadSimpleQuote`: the characters the loop copies
  into `tmp` are not stored; the readers that use them take them as a
  parameter, and `StringCodec.SimpleQuoteRoundTrip` states which bytes
  they come from.
- `NumberReading.DeserializeIntegral`: the `tmp` buffer of
  `readSimpleQuote` is a length parameter (`tmpLength`); its growth is not
  modelled.
- The `serializeNullable` overloads of `JavaTimeConverter` write `null`
  or call `serialize`; they are not modelled separately.
- The collection readers of `JavaTimeConverter`
  (`deserializeLocalDateCollection` and the like) are
  `deserializeCollection` with a date reader; they are not modelled
  separately.
- The JDK parsers the deserializers fall back on (`LocalDate.parse`,
  `OffsetDateTime.parse` and the like) are not part of this model: a
  fallback returns the characters it would hand over.
- `JavaTimeConverter.SerializeLocalDateTime`,
  `JavaTimeConverter.SerializeOffsetDateTime`: the `toString()` text for
  years above 9999 is a parameter; the JDK's formatter is not part of this
  model.
- `JavaTimeConverter.WriteTimezone`: requires a buffer of at least two
  bytes, which every writer of the library has.
- `ZoneOffset` values with seconds: `getId()` then writes `±HH:MM:SS`,
  which the fast paths do not read; the round trips cover offsets of whole
  minutes.
- The `ZonedDateTime` reader and writer go through `OffsetDateTime`; zone
  rules are not part of this model.
- Joda zones: a zone is reduced to its offset at the value's instant
  (`zone.getOffset(getMillis())`); zone rules and the instant itself are
  not part of this model.
- Joda's ISO parsers (`dateTimeParser`, `localDateParser`) are not part of
  this model: a fallback returns the characters they would be handed.
- The `serializeNullable` overloads and the collection readers of both
  `JodaTimeConverter` versions write `null`, call `serialize`, or are
  `deserializeCollection` with a date reader; they are not modelled
  separately.
- `JodaTimeConverter.SerializeDateTime`, `JodaTimeConverter.SerializeLocalDate`,
  `LegacyJodaConverter.SerializeDateTime`, `LegacyJodaConverter.SerializeLocalDate`:
  require a year of at least 0. For a negative year `write4` throws an
  index error, except the library's at a negative multiple of 1000, where
  it writes a non-digit byte before `000` (`NumberConverter.Write4` and
  `LegacyNumbers.Write4` state both); the serializers and the text they
  produce are stated for years from 0 on.
- `LegacyJodaConverter.SerializeDateTime`, `LegacyJodaConverter.SerializeLocalDate`:
  require a scratch buffer of at least 31 and 12 bytes; the older
  `JsonWriter` that owns it is not part of this model.
- `IllegalFieldValueException`: Joda's message names the field and the
  value; the model carries one fixed text.
- Offsets with seconds or milliseconds (historical local mean times):
  `writeTimezone` drops them (`JodaTime.ZoneTextValue` states by how much);
  what the parser then reads is not part of this model.

- The `double` geometry of the converters (`Point2D`, `Rectangle2D`,
  `PointF`, `serializeLocation` and the AWT `serializeRectangle`) is
  floating point and is not part of this model; nor are the image
  converters, which go through the JDK's and Android's image codecs.
- The `serialize...Nullable` and `deserialize...Collection` geometry
  methods write `null`, call the serializer, or are
  `deserializeCollection` with the point or rectangle reader; they are
  not modelled separately.
- `StringConverter` is not part of this model: the geometry readers read
  an attribute name with the reader's `parseString`.
- `Geometry.EqualsIgnoreCase`: case folding is modelled for ASCII letters
  only. `equalsIgnoreCase` also folds other letters, and a few of them
  match the ASCII keys: the dotless `ı` upper-cases to `I`, so the source
  takes `Wıdth` for `Width`, while the model ignores that name.
- `GeomRoundTrip.ObjectRoundTrip`: names that contain surrogate code units
  are left out, as for `StringCodec.ParseStringRoundTrip` as written.

- The property readers of `ObjectFormatDescription` (`ri.value.bind`) are
  code outside this core: a member's value is abstracted to `null`, a value
  the reader accepts, or input it refuses. `DecodePropertyInfo` (the
  `prepare` step that fills in hashes and `exactName`, and
  `showMandatoryError`) is not part of this model: the decoders are taken
  as given, and `ObjectFormatProperties.Prepared` states what the
  properties assume of them.
- `ObjectFormat`: the token level of the object (whitespace, the `:` after
  a name, the reader's hash state) is summarised by the members' names,
  hashes and values; `JsonReader` models the token readers themselves.
- `StructInfo`: the attributes map is a sequence in insertion order, and an
  attribute holds only what these operations read (id, name, alias,
  alternative names, index). `pathDescription`, `deserializeTarget` and the
  converter-only constructor (lines 81-97, all fields constant) are not
  modelled.
- `StructInfo.SortByIndex`: `Arrays.sort` with the comparator of lines
  183-187 is modelled as a stable insertion sort. The comparator is not a
  consistent order (two unindexed attributes each come before the other),
  so the source guarantees neither the order among unindexed attributes
  nor that it keeps theirs; the model states sortedness and permutation.
- `Analysis`: only `objectName`, `beanOrActualName` and the mixin and
  array-index checks are modelled. The rest of the analysis walks the
  compiler's element model, which is not part of this model; so is the
  class discriminator hash check (lines 557-580), which needs the
  processor's property names. The hash collision error (lines 485-492) is
  `StructInfo.CheckHashCollision`. Messages are reduced to the error flag.
- `Analysis.BeanOrActualName`: case conversion covers ASCII letters only.
- `Context`: the `structs` lookup of `getDefault` is reduced to what it
  reads (`Target`), and the selection of the factory or constructor is a
  list of parameter names. The Kotlin and Java 8 template helpers of
  `Context` other than these four are not modelled.
- `Context.SortedAttributes`: the order among unindexed attributes after
  `result.sort` follows the comparator of lines 98-102, which is not
  consistent (see `StructInfo.SortByIndex`); the contract states the order
  of the indexed ones and the placement of the parameters only.
- `DslJson`: the configuration, the `serialize`/`deserialize` dispatch on
  a `Type` and the stream APIs are not part of this model. Of the
  registries only `tryFindReader` is modelled; the factories' own side
  effects are not.
- `DslJson.SerializeMap`: a value is given as the bytes its writer
  produces (or as `null`); the lookup of that writer by the value's class,
  the fallback serializer and the "Unable to serialize" error of
  `serialize(writer, value)` (lines 2189-2197) are not modelled. The
  `Map` is given as its entries in iteration order.
- `DslJson.tryFindWriter` (library/src/main/java/com/dslplatform/json/DslJson.java:670-697) is not part of this model:
  after the registered writers and the factories it consults `writerMap`
  and then scans the class hierarchy through `findAllSignatures`
  (`getSuperclass`, `getInterfaces`), caching the signature it finds.
  That fallback is reflection over `Class`, which the model has no
  counterpart for; `tryFindReader` has no such fallback (line 703).
- `DslJson.Settings`: `resolveWriter`, `resolveReader` and `with` throw
  `IllegalArgumentException` on a `null` argument (lines 204, 217 and
  248). These checks are not modelled, because the model has no `null`
  factory or configuration to pass.
- `DslJson.SimpleStringCache.constructor`: requires `log2Size <= 30`; from
  31 on the `int` size overflows, which the model does not follow.
- `DslJson.SimpleStringCache.Slot`: `hash & mask` is written as the
  remainder modulo the power-of-two size, which is the same number.
- `DslJson.IsNull`: requires four bytes in a body of size four, as every
  caller passes the body's own length; a shorter array throws.
- `Mixin`: the format converters (`readContent`, `writeContentFull`,
  `writeContentMinimal`) are code outside this core: the read result is
  the description selected, and the content written is given bytes. The
  error messages are fixed texts, without the type description and the
  name found. The tokens `read` meets before the content (the first token,
  the key, the token after it, the start of the value, the name and the
  token after it) are given as a `Head`, not read from a buffer.
- `Mixin.WellFormed`: the type hash is `DecodePropertyInfo.calcHash`,
  which is not part of this model; it is taken to be the FNV-1a hash of
  the name's bytes, as `StructInfo.CalcHash`. The object start and the
  quoted name are the UTF-8 bytes of the text; the model takes one byte
  per character, which is the same for ASCII names and discriminators.

## Findings

| source | as written | input that shows it | evidently intended | confidence | as-written member | corrected member |
|---|---|---|---|---|---|---|
| library/src/main/java/com/dslplatform/json/JsonReader.java:406-424 | after storing the surrogate pair of a supplementary code point, the 4-byte branch falls through and also stores `(char) bc` | the bytes F0 9F 98 80 (U+1F600) inside a string | store only the surrogate pair | high, not executed | `ReaderSpec.FourByteAsWrittenAddsUnit`, `StringCodec.FourByteUnitDecodes` | `StringCodec.ParseStringRoundTrip` |
| library/src/main/java/com/dslplatform/json/NumberConverter.java:586-602 | `parsePositiveInt` reports an overflow only when the accumulated `int` turns negative; `429496729 * 10 + 6` wraps to exactly 0 | the token `4294967296`, read by `deserializeInt` as 0 | report every value outside the `int` range as an overflow | high, not executed | `NumberProperties.WrappedIntIsZero` | `NumberProperties.CheckedDigitLoopExact` |
| library/src/main/java/com/dslplatform/json/NumberConverter.java:529-546 | `serialize(int[])` reserves `values.length * 11 + 2` bytes, but each value takes up to 11 bytes plus a comma | three copies of -1000000000 (37 bytes) on a writer with 36 bytes of room: the closing bracket is stored past the array's end | reserve 12 bytes per value, as the `long[]` writer reserves one more than the longest value | high, not executed | `NumberConverter.IntArrayRoomTooSmall` | `NumberConverter.SerializeIntArrayReserved` |
| src/main/java/com/dslplatform/json/NumberConverter.java:760-778 | a non-digit in the exponent's digits sends the whole token to the `BigDecimal` parser and takes that value as the exponent; trailing whitespace counts as such a non-digit | the characters `1e5 ` read as 1E+100000 | trailing whitespace ends the number, as `parseNumberGeneric` treats it, giving 1E+5 | medium, not executed | `LegacyReading.TrailingSpaceExponent` | `LegacyReading.TrimmedRoundTrip` |
| java8/src/main/java/com/dslplatform/json/JavaTimeConverter.java:187-205 | `serialize(LocalTime)` reserves 18 bytes with `ensureCapacity(18)`, but a time with nine fraction digits takes 20 | 12:13:14.123456789 on a writer whose 20-byte buffer is at position 1: the closing quote falls past the end | reserve 20 bytes, the longest quoted time; the test `localTimeBoundary` of DateTest.java writes such times into a 20-byte writer | high, not executed | `JavaTimeConverter.SerializeLocalTime`, `JavaTimeConverter.LocalTimeReserveTooSmall` | `JavaTimeConverter.SerializeLocalTimeReserved` |
| java8/src/main/java/com/dslplatform/json/JavaTimeConverter.java:304 | the minutes of a `±HH:MM` offset keep a positive sign when the hours are negated (line 399 does the same for `OffsetTime`), and `ZoneOffset.ofHoursMinutes` rejects negative hours with positive minutes | `"2020-01-02T03:04:05-03:30"` fails with a `DateTimeException`; `-00:30` reads as `+00:30` | negate the minutes with the hours, so that every offset `getId()` writes reads back, as the tests `negativeTimeOffsetConversion` and `zonedDateTimeBoundary` of DateTest.java expect | high, not executed (relies on the documented rule of `ZoneOffset.ofHoursMinutes`) | `JavaTimeRoundTrip.OffsetDateTimeZoneRoundTrip`, `JavaTimeRoundTrip.OffsetTimeZoneRoundTrip` | `JavaTimeReading.DeserializeDateTimeSigned`, `JavaTimeReading.DeserializeOffsetTimeSigned` |
| library/src/main/java/com/dslplatform/json/runtime/ObjectFormatDescription.java:87-113 | with no property decoders, the fast loop does not run and `finalChecks` sees the opening quote of the first member, failing with "Expecting '}' or ','" whatever the unknown-property policy | `{"a":1}` read by a description without properties that skips unknown ones | hand the members to `bindObjectSlow`, where they are skipped or reported as unknown | medium, not executed | `ObjectFormat.BindContentAsWritten`, `ObjectFormatProperties.NoDecodersRefuseMembers` | `ObjectFormat.BindContent`, `ObjectFormatProperties.CorrectedVerdict` |

/** The runtime description of a mixin: an interface or abstract class whose
    JSON names the implementation in a discriminator, either as the first
    property of an object or as the first element of an array. */
module Mixin {
  import opened Java
  import Fnv
  import StructInfo

  /** What a mixin reads of one implementation's format description: the
      implementation class, the type name and its hash, which formats it
      has, which it writes, and the quoted name it writes. */
  datatype Variant = Variant(
    manifest: nat,
    typeName: seq<Char>,
    typeHash: bv32,
    hasObjectFormat: bool,
    hasArrayFormat: bool,
    isObjectFormatFirst: bool,
    quotedTypeName: seq<Byte>)

  /** A description built from an ASCII type name without quotes: its hash
      and its quoted bytes are those of the name. */
  predicate WellFormed(v: Variant) {
    (forall i | 0 <= i < |v.typeName| :: v.typeName[i] < 128 && v.typeName[i] != QUOTE) &&
    v.typeHash == StructInfo.NameHash(v.typeName) &&
    v.quotedTypeName == [QUOTE] + StructInfo.NameBytes(v.typeName) + [QUOTE]
  }

  /** The mixin: the discriminator and its hash, the bytes `{"<key>":` it
      writes first, the implementations, and the flags the constructor
      derives from them. */
  datatype Mixin = Mixin(
    typeHash: bv32,
    objectStart: seq<Byte>,
    discriminator: seq<Char>,
    descriptions: seq<Variant>,
    alwaysSerialize: bool,
    exactMatch: bool,
    canObjectFormat: bool,
    canArrayFormat: bool)

  const DEFAULT_KEY: seq<Char> := ['$' as int, 't' as int, 'y' as int, 'p' as int, 'e' as int]

  /** `{"<key>":` */
  function ObjectStart(key: seq<Char>): seq<Byte> {
    [OBJECT_START, QUOTE] + StructInfo.NameBytes(key) + [QUOTE, COLON]
  }

  predicate DistinctHashes(ds: seq<Variant>) {
    forall i, j | 0 <= i < j < |ds| :: ds[i].typeHash != ds[j].typeHash
  }

  /** The hashes of the type names. */
  function Hashes(ds: seq<Variant>): set<bv32> {
    set i | 0 <= i < |ds| :: ds[i].typeHash
  }

  /** The constructor's checks on a discriminator given explicitly: not
      empty and without a quote. */
  predicate ValidDiscriminator(discriminator: Option<seq<Char>>) {
    discriminator.None? || (0 < |discriminator.value| && QUOTE !in discriminator.value)
  }

  /** A mixin as the constructor builds it from its key and descriptions. */
  predicate Consistent(m: Mixin) {
    0 < |m.descriptions| &&
    m.typeHash == StructInfo.NameHash(m.discriminator) &&
    m.objectStart == ObjectStart(m.discriminator) &&
    (m.exactMatch <==> !DistinctHashes(m.descriptions)) &&
    (m.canObjectFormat <==> exists i | 0 <= i < |m.descriptions| :: m.descriptions[i].hasObjectFormat) &&
    (m.canArrayFormat <==> exists i | 0 <= i < |m.descriptions| :: m.descriptions[i].hasArrayFormat)
  }

  /** The constructor: descriptions must be given, an explicit discriminator
      must be valid, and `$type` is the key otherwise. One pass over the
      descriptions collects the set of type hashes and which formats exist;
      exact name matching is needed when the set is smaller than the list. */
  method New(descriptions: seq<Variant>, discriminator: Option<seq<Char>>, omitDefaults: bool) returns (r: Result<Mixin>)
    ensures r.Err? <==> |descriptions| == 0 || !ValidDiscriminator(discriminator)
    ensures r.Ok? ==>
      (Consistent(r.value) && r.value.descriptions == descriptions &&
       r.value.discriminator == (if discriminator.Some? then discriminator.value else DEFAULT_KEY) &&
       r.value.alwaysSerialize == !omitDefaults)
  {
    if |descriptions| == 0 {
      return Err(IllegalArgument("descriptions can't be null or empty"));
    }
    if discriminator.Some? && (|discriminator.value| == 0 || QUOTE in discriminator.value) {
      return Err(IllegalArgument("Invalid discriminator provided"));
    }
    var key := if discriminator.Some? then discriminator.value else DEFAULT_KEY;
    var uniqueHashNames: set<bv32> := {};
    var canObject := false;
    var canArray := false;
    for i := 0 to |descriptions|
      invariant uniqueHashNames == Hashes(descriptions[..i])
      invariant canObject <==> exists j | 0 <= j < i :: descriptions[j].hasObjectFormat
      invariant canArray <==> exists j | 0 <= j < i :: descriptions[j].hasArrayFormat
    {
      HashesSnoc(descriptions, i);
      uniqueHashNames := uniqueHashNames + {descriptions[i].typeHash};
      canObject := canObject || descriptions[i].hasObjectFormat;
      canArray := canArray || descriptions[i].hasArrayFormat;
    }
    assert descriptions[..|descriptions|] == descriptions;
    HashCount(descriptions);
    var typeHash := StructInfo.CalcHash(key);
    r := Ok(Mixin(typeHash, ObjectStart(key), key, descriptions, !omitDefaults,
                  |uniqueHashNames| != |descriptions|, canObject, canArray));
  }

  lemma HashesSnoc(ds: seq<Variant>, i: nat)
    requires i < |ds|
    ensures Hashes(ds[..i + 1]) == Hashes(ds[..i]) + {ds[i].typeHash}
  {
    var next := ds[..i + 1];
    assert forall j | 0 <= j < i :: next[j] == ds[..i][j];
    assert next[i] == ds[i];
  }

  /** A list of descriptions has as many hashes as entries exactly when
      no two entries share one. */
  lemma {:induction false} HashCount(ds: seq<Variant>)
    ensures |Hashes(ds)| <= |ds|
    ensures |Hashes(ds)| == |ds| <==> DistinctHashes(ds)
    decreases |ds|
  {
    if ds != [] {
      var n := |ds| - 1;
      var init := ds[..n];
      HashCount(init);
      HashesSnoc(ds, n);
      assert ds[..n + 1] == ds;
      var h := ds[n].typeHash;
      if h in Hashes(init) {
        var j :| 0 <= j < n && init[j].typeHash == h;
        assert ds[j].typeHash == ds[n].typeHash;
        assert Hashes(ds) == Hashes(init);
      } else {
        assert |Hashes(ds)| == |Hashes(init)| + 1;
        if DistinctHashes(init) {
          forall i, j | 0 <= i < j < |ds| ensures ds[i].typeHash != ds[j].typeHash {
            if j < n {
              assert init[i] == ds[i] && init[j] == ds[j];
            } else {
              assert ds[i].typeHash in Hashes(init) by { assert init[i] == ds[i]; }
            }
          }
        }
        if DistinctHashes(ds) {
          forall i, j | 0 <= i < j < |init| ensures init[i].typeHash != init[j].typeHash {
            assert init[i] == ds[i] && init[j] == ds[j];
          }
        }
      }
    }
  }

  // ---------------------------------------------------------------------
  // read

  datatype Format = ObjectFormat | ArrayFormat

  /** The parse error `read` raises on a value that starts neither way. */
  function StartError(m: Mixin): Error {
    if m.canObjectFormat && m.canArrayFormat then IOError("Expecting '{' or '[' for object start")
    else if m.canObjectFormat then IOError("Expecting '{' for object start")
    else IOError("Expecting '[' for object start")
  }

  /** The start of `read`: `null`, or the format the first byte selects,
      when the mixin has it. */
  function Dispatch(m: Mixin, wasNull: bool, last: Byte): (r: Result<Option<Format>>)
    ensures r == Ok(None) <==> wasNull
    ensures r == Ok(Some(ObjectFormat)) <==> !wasNull && last == OBJECT_START && m.canObjectFormat
    ensures r == Ok(Some(ArrayFormat)) <==> !wasNull && last == ARRAY_START && m.canArrayFormat
    ensures r.Err? ==> r.error == StartError(m)
  {
    if wasNull then Ok(None)
    else if last == OBJECT_START && m.canObjectFormat then Ok(Some(ObjectFormat))
    else if m.canArrayFormat && last == ARRAY_START then Ok(Some(ArrayFormat))
    else Err(StartError(m))
  }

  /** `wasLastName(typeName)`: each character equals the byte read, the byte
      widened as a signed value, so a name beyond ASCII never matches. */
  predicate WasLastName(name: seq<Byte>, typeName: seq<Char>) {
    |typeName| == |name| && forall i | 0 <= i < |name| :: typeName[i] == name[i]
  }

  /** Whether a description decodes the type name `name` read in `format`:
      it has the format, its hash is the name's, and, when hashes alone do
      not tell the descriptions apart, its name is the one read. */
  predicate Decodes(m: Mixin, format: Format, v: Variant, name: seq<Byte>) {
    (if format == ObjectFormat then v.hasObjectFormat else v.hasArrayFormat) &&
    v.typeHash == Fnv.Hash(name) &&
    (m.exactMatch ==> WasLastName(name, v.typeName))
  }

  /** The loop over the descriptions: the first that decodes the name, or
      the number of descriptions when none does. */
  function Select(m: Mixin, format: Format, name: seq<Byte>, from: nat): (i: nat)
    requires from <= |m.descriptions|
    ensures from <= i <= |m.descriptions| && (i < |m.descriptions| ==> Decodes(m, format, m.descriptions[i], name))
    ensures forall j | from <= j < i :: !Decodes(m, format, m.descriptions[j], name)
    decreases |m.descriptions| - from
  {
    if from == |m.descriptions| || Decodes(m, format, m.descriptions[from], name) then from
    else Select(m, format, name, from + 1)
  }

  /** What the reader meets after the start of a mixin value: the token
      after the start byte; in object format the first key, the token after
      it (`fillName` wants a colon) and the first token of the value
      (`calcHash` wants a quote); the type name, and the token after it. */
  datatype Head = Head(token: Byte, key: seq<Byte>, colon: Byte, valueStart: Byte, name: seq<Byte>, after: Byte)

  function DiscriminatorError(m: Mixin): Error {
    IOError("Expecting discriminator attribute as first element of mixin")
  }

  function NoDecoder(format: Format): Error {
    if format == ObjectFormat then Configuration("Unable to find decoder which supports object format")
    else Configuration("Unable to find decoder which supports array format")
  }

  /** `readObjectFormat`: the first key must be the discriminator, matched by
      its hash, and then the first description that decodes the type name
      reads the rest. */
  function ReadObjectFormat(m: Mixin, head: Head): Result<nat> {
    if head.token != QUOTE then Err(DiscriminatorError(m))
    else if head.colon != COLON then Err(IOError("Expecting ':'"))
    else if Fnv.Hash(head.key) != m.typeHash then Err(DiscriminatorError(m))
    else if head.valueStart != QUOTE then Err(IOError("Expecting '\"'"))
    else
      var i := Select(m, ObjectFormat, head.name, 0);
      if i == |m.descriptions| then Err(NoDecoder(ObjectFormat)) else Ok(i)
  }

  /** `readArrayFormat`: the first element is the type name; after it comes
      a comma, or the end of the array. */
  function ReadArrayFormat(m: Mixin, head: Head): Result<nat> {
    if head.token != QUOTE then Err(DiscriminatorError(m))
    else
      var i := Select(m, ArrayFormat, head.name, 0);
      if i == |m.descriptions| then Err(NoDecoder(ArrayFormat))
      else if head.after == COMMA then Ok(i)
      else if head.after != ARRAY_END then Err(IOError("Expecting ']' for array format end"))
      else Ok(i)
  }

  /** `read`: `null`, or the format and the description that reads the
      value. The description is the first one that decodes the type name; a
      name no description decodes is a configuration error in both
      formats. */
  function Read(m: Mixin, wasNull: bool, last: Byte, head: Head): (r: Result<Option<(Format, nat)>>)
    ensures wasNull ==> r == Ok(None)
    ensures r.Ok? && r.value.Some? ==>
      var (format, i) := r.value.value;
      i < |m.descriptions| && Decodes(m, format, m.descriptions[i], head.name) &&
      (forall j | 0 <= j < i :: !Decodes(m, format, m.descriptions[j], head.name)) &&
      Dispatch(m, wasNull, last) == Ok(Some(format))
    ensures (Dispatch(m, wasNull, last) == Ok(Some(ObjectFormat)) &&
             (head.token != QUOTE || (head.colon == COLON && Fnv.Hash(head.key) != m.typeHash))) ==>
      r == Err(DiscriminatorError(m))
    ensures (Dispatch(m, wasNull, last) == Ok(Some(ObjectFormat)) && head.token == QUOTE && head.colon != COLON) ==>
      r == Err(IOError("Expecting ':'"))
    ensures (Dispatch(m, wasNull, last) == Ok(Some(ObjectFormat)) && head.token == QUOTE && head.colon == COLON &&
             Fnv.Hash(head.key) == m.typeHash && head.valueStart != QUOTE) ==>
      r == Err(IOError("Expecting '\"'"))
    ensures ((forall j | 0 <= j < |m.descriptions| :: !Decodes(m, ObjectFormat, m.descriptions[j], head.name)) &&
             Dispatch(m, wasNull, last) == Ok(Some(ObjectFormat)) && head.token == QUOTE && head.colon == COLON &&
             Fnv.Hash(head.key) == m.typeHash && head.valueStart == QUOTE) ==>
      r == Err(NoDecoder(ObjectFormat))
    ensures ((forall j | 0 <= j < |m.descriptions| :: !Decodes(m, ArrayFormat, m.descriptions[j], head.name)) &&
             Dispatch(m, wasNull, last) == Ok(Some(ArrayFormat)) && head.token == QUOTE) ==>
      r == Err(NoDecoder(ArrayFormat))
  {
    var start := Dispatch(m, wasNull, last);
    if start.Err? then Err(start.error)
    else if start.value.None? then Ok(None)
    else
      var format := start.value.value;
      var i := if format == ObjectFormat then ReadObjectFormat(m, head) else ReadArrayFormat(m, head);
      if i.Err? then Err(i.error) else Ok(Some((format, i.value)))
  }

  // ---------------------------------------------------------------------
  // write

  /** An instance to write: its class, and the bytes its description's
      converters write for it: full object content, minimal object content
      (each property followed by a comma), and array content. */
  datatype Instance = Instance(manifest: nat, full: seq<Byte>, minimal: seq<Byte>, elements: seq<Byte>)

  /** The first description of the instance's class, or the number of
      descriptions when none is. */
  function EncoderOf(ds: seq<Variant>, manifest: nat, from: nat): (i: nat)
    requires from <= |ds|
    ensures from <= i <= |ds| && (i < |ds| ==> ds[i].manifest == manifest)
    ensures forall j | from <= j < i :: ds[j].manifest != manifest
    decreases |ds| - from
  {
    if from == |ds| || ds[from].manifest == manifest then from else EncoderOf(ds, manifest, from + 1)
  }

  /** The discriminator pair an object starts with. */
  function ObjectHead(m: Mixin, v: Variant): seq<Byte> {
    m.objectStart + v.quotedTypeName
  }

  /** The object format after the discriminator pair: a comma and the
      content, then the closing brace. With all properties written, an
      empty content turns that comma into the brace; minimal content ends
      each property with a comma, and the brace replaces the last byte. */
  function ObjectBody(head: seq<Byte>, alwaysSerialize: bool, x: Instance): (r: seq<Byte>)
    ensures head <= r && |head| < |r| && r[|r| - 1] == OBJECT_END
    ensures alwaysSerialize && x.full == [] ==> r == head + [OBJECT_END]
    ensures !alwaysSerialize ==> r == (head + [COMMA] + x.minimal)[..|head| + |x.minimal|] + [OBJECT_END]
  {
    if alwaysSerialize then
      if x.full == [] then head + [OBJECT_END] else head + [COMMA] + x.full + [OBJECT_END]
    else
      var written := head + [COMMA] + x.minimal;
      written[..|written| - 1] + [OBJECT_END]
  }

  /** The array format: the quoted name as the first element, a comma and
      the content, then the closing bracket, which replaces the comma when
      the content is empty. */
  function ArrayBody(head: seq<Byte>, x: Instance): (r: seq<Byte>)
    ensures head <= r && |head| < |r| && r[|r| - 1] == ARRAY_END
    ensures x.elements == [] <==> r == head + [ARRAY_END]
  {
    if x.elements == [] then head + [ARRAY_END] else head + [COMMA] + x.elements + [ARRAY_END]
  }

  /** `write`: `null`, or the first description of the instance's class
      writes it in the format it writes first. */
  function Write(m: Mixin, instance: Option<Instance>): (r: Result<seq<Byte>>)
    ensures instance.None? ==> r == Ok(NULL)
    ensures r.Err? <==> instance.Some? && EncoderOf(m.descriptions, instance.value.manifest, 0) == |m.descriptions|
    ensures r.Ok? && instance.Some? ==>
      var v := m.descriptions[EncoderOf(m.descriptions, instance.value.manifest, 0)];
      (v.isObjectFormatFirst ==> ObjectHead(m, v) < r.value && r.value[|r.value| - 1] == OBJECT_END) &&
      (!v.isObjectFormatFirst ==> [ARRAY_START] + v.quotedTypeName < r.value && r.value[|r.value| - 1] == ARRAY_END)
  {
    if instance.None? then Ok(NULL)
    else
      var x := instance.value;
      var i := EncoderOf(m.descriptions, x.manifest, 0);
      if i == |m.descriptions| then Err(Configuration("Unable to find encoder"))
      else
        var v := m.descriptions[i];
        if v.isObjectFormatFirst then Ok(ObjectBody(ObjectHead(m, v), m.alwaysSerialize, x))
        else Ok(ArrayBody([ARRAY_START] + v.quotedTypeName, x))
  }

  /** Both object modes write the same bytes when the minimal content is the
      full content with the trailing comma of its last property, and when
      neither writes anything: the closing brace always replaces the last
      comma. */
  lemma MinimalIsFull(head: seq<Byte>, x: Instance)
    requires x.minimal == [] || (x.full != [] && x.minimal == x.full + [COMMA])
    requires x.minimal == [] <==> x.full == []
    ensures ObjectBody(head, true, x) == ObjectBody(head, false, x)
  {
    var written := head + [COMMA] + x.minimal;
    if x.full == [] {
      assert written[..|written| - 1] == head;
    } else {
      assert written[..|written| - 1] == head + [COMMA] + x.full;
    }
  }

  /** The descriptions as the runtime builds them: each from an ASCII
      name without quotes, and no two with the same name. */
  predicate Described(m: Mixin) {
    (forall j | 0 <= j < |m.descriptions| :: WellFormed(m.descriptions[j])) &&
    (forall j, k | 0 <= j < k < |m.descriptions| :: m.descriptions[j].typeName != m.descriptions[k].typeName)
  }

  /** Whether a description has a format. */
  predicate Has(v: Variant, format: Format) {
    if format == ObjectFormat then v.hasObjectFormat else v.hasArrayFormat
  }

  /** Reading back what `write` put first: the description that writes an
      instance writes its discriminator key and its type name, and reading
      those selects that description again, in the format it writes. */
  lemma WrittenReadsBack(m: Mixin, x: Instance)
    requires Consistent(m) && Described(m)
    requires EncoderOf(m.descriptions, x.manifest, 0) < |m.descriptions|
    requires var v := m.descriptions[EncoderOf(m.descriptions, x.manifest, 0)];
      Has(v, if v.isObjectFormatFirst then ObjectFormat else ArrayFormat)
    ensures var i := EncoderOf(m.descriptions, x.manifest, 0);
      var v := m.descriptions[i];
      var name := StructInfo.NameBytes(v.typeName);
      var w := Write(m, Some(x));
      w.Ok? &&
      (v.isObjectFormatFirst ==>
        ObjectStart(m.discriminator) + [QUOTE] + name + [QUOTE] < w.value &&
        Read(m, false, OBJECT_START, Head(QUOTE, StructInfo.NameBytes(m.discriminator), COLON, QUOTE, name, COMMA)) ==
          Ok(Some((ObjectFormat, i)))) &&
      (!v.isObjectFormatFirst ==>
        [ARRAY_START, QUOTE] + name + [QUOTE] < w.value &&
        Read(m, false, ARRAY_START, Head(QUOTE, [], COLON, QUOTE, name, if x.elements == [] then ARRAY_END else COMMA)) ==
          Ok(Some((ArrayFormat, i))))
  {
    var i := EncoderOf(m.descriptions, x.manifest, 0);
    var v := m.descriptions[i];
    HeadBytes(m, v);
    if v.isObjectFormatFirst {
      ObjectReadBack(m, i);
    } else {
      ArrayReadBack(m, i, x.elements == []);
    }
  }

  /** The bytes a well-formed description writes before the content. */
  lemma HeadBytes(m: Mixin, v: Variant)
    requires m.objectStart == ObjectStart(m.discriminator) && WellFormed(v)
    ensures ObjectHead(m, v) == ObjectStart(m.discriminator) + [QUOTE] + StructInfo.NameBytes(v.typeName) + [QUOTE]
    ensures [ARRAY_START] + v.quotedTypeName == [ARRAY_START, QUOTE] + StructInfo.NameBytes(v.typeName) + [QUOTE]
  {
    var name := StructInfo.NameBytes(v.typeName);
    assert ObjectHead(m, v) == ObjectStart(m.discriminator) + ([QUOTE] + name + [QUOTE]);
  }

  /** The quoted type name after `{"<key>":` selects the description. */
  lemma ObjectReadBack(m: Mixin, i: nat)
    requires Consistent(m) && Described(m) && i < |m.descriptions| && m.descriptions[i].hasObjectFormat
    ensures var name := StructInfo.NameBytes(m.descriptions[i].typeName);
      Read(m, false, OBJECT_START, Head(QUOTE, StructInfo.NameBytes(m.discriminator), COLON, QUOTE, name, COMMA)) ==
        Ok(Some((ObjectFormat, i)))
  {
    var name := StructInfo.NameBytes(m.descriptions[i].typeName);
    var head := Head(QUOTE, StructInfo.NameBytes(m.discriminator), COLON, QUOTE, name, COMMA);
    SelectWritten(m, ObjectFormat, i);
    assert ReadObjectFormat(m, head) == Ok(i);
    assert m.canObjectFormat by { assert m.descriptions[i].hasObjectFormat; }
    assert Dispatch(m, false, OBJECT_START) == Ok(Some(ObjectFormat));
    assert Read(m, false, OBJECT_START, head) == Ok(Some((ObjectFormat, i)));
  }

  /** The quoted type name after `[` selects the description, whether a
      comma or the end of the array follows. */
  lemma ArrayReadBack(m: Mixin, i: nat, empty: bool)
    requires Consistent(m) && Described(m) && i < |m.descriptions| && m.descriptions[i].hasArrayFormat
    ensures var name := StructInfo.NameBytes(m.descriptions[i].typeName);
      Read(m, false, ARRAY_START, Head(QUOTE, [], COLON, QUOTE, name, if empty then ARRAY_END else COMMA)) ==
        Ok(Some((ArrayFormat, i)))
  {
    var name := StructInfo.NameBytes(m.descriptions[i].typeName);
    var head := Head(QUOTE, [], COLON, QUOTE, name, if empty then ARRAY_END else COMMA);
    SelectWritten(m, ArrayFormat, i);
    assert ReadArrayFormat(m, head) == Ok(i);
    assert m.canArrayFormat by { assert m.descriptions[i].hasArrayFormat; }
    assert Dispatch(m, false, ARRAY_START) == Ok(Some(ArrayFormat));
    assert Read(m, false, ARRAY_START, head) == Ok(Some((ArrayFormat, i)));
  }

  /** For well-formed descriptions whose type names differ, the type name of
      a description selects that description in any format it has. */
  lemma {:induction false} SelectWritten(m: Mixin, format: Format, i: nat)
    requires Consistent(m) && Described(m) && i < |m.descriptions| && Has(m.descriptions[i], format)
    ensures Select(m, format, StructInfo.NameBytes(m.descriptions[i].typeName), 0) == i
  {
    var v := m.descriptions[i];
    var name := StructInfo.NameBytes(v.typeName);
    LastNameOfAscii(v.typeName, v.typeName);
    assert Decodes(m, format, v, name);
    forall j | 0 <= j < i ensures !Decodes(m, format, m.descriptions[j], name) {
      NotDecodedEarlier(m, format, i, j);
    }
  }

  /** An earlier description does not decode the name written by a later
      one: with exact matching its name differs, otherwise its hash. */
  lemma NotDecodedEarlier(m: Mixin, format: Format, i: nat, j: nat)
    requires Consistent(m) && j < i < |m.descriptions|
    requires WellFormed(m.descriptions[i]) && WellFormed(m.descriptions[j])
    requires m.descriptions[j].typeName != m.descriptions[i].typeName
    ensures !Decodes(m, format, m.descriptions[j], StructInfo.NameBytes(m.descriptions[i].typeName))
  {
    var v, w := m.descriptions[i], m.descriptions[j];
    if m.exactMatch {
      LastNameOfAscii(v.typeName, w.typeName);
    } else {
      assert w.typeHash != v.typeHash;
    }
  }

  /** `wasLastName` on the bytes of an ASCII name holds for that name and
      no other. */
  lemma LastNameOfAscii(n: seq<Char>, t: seq<Char>)
    requires forall k | 0 <= k < |n| :: n[k] < 128
    ensures WasLastName(StructInfo.NameBytes(n), t) <==> t == n
  {
    var name := StructInfo.NameBytes(n);
    forall k | 0 <= k < |n| ensures name[k] == n[k] {
      assert ToByte(n[k]) == n[k];
    }
    if WasLastName(name, t) {
      assert t == n;
    }
  }
}

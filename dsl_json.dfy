/** Parts of the `DslJson` facade: the `null` body test, the simple string
    cache that deduplicates parsed strings, and the reader lookup that
    caches what a converter factory creates, and `serializeMap`. */
module DslJson {
  import opened Java
  import StructInfo
  import JsonWriter

  // ---------------------------------------------------------------------
  // isNull

  /** `isNull(size, body)`: a body of four bytes spelling `null`. */
  function IsNull(size: int, body: seq<Byte>): (r: bool)
    requires size == 4 ==> 4 <= |body|
    ensures r <==> size == 4 && body[..4] == NULL
  {
    size == 4 && body[0] == 'n' as int && body[1] == 'u' as int && body[2] == 'l' as int && body[3] == 'l' as int
  }

  /** A whole body is `null` exactly when it is the literal. */
  lemma IsNullExactly(body: seq<Byte>)
    ensures IsNull(|body|, body) <==> body == NULL
  {
    if |body| == 4 {
      assert body[..4] == body;
    }
  }

  // ---------------------------------------------------------------------
  // SimpleStringCache

  /** A `String` instance. Elsewhere strings are values; the cache exists to
      hand out the same instance again, so here a string is an object. */
  class Text {
    const chars: seq<Char>

    constructor(chars: seq<Char>)
      ensures this.chars == chars
    {
      this.chars := chars;
    }
  }

  function Pow2(n: nat): (r: nat)
    ensures 1 <= r
  {
    if n == 0 then 1 else 2 * Pow2(n - 1)
  }

  /** The string cache: an array of a power-of-two size indexed by the
      name hash of the characters. Each slot holds the last string put
      there. */
  class SimpleStringCache {
    const mask: int
    const cache: array<Text?>
    ghost const log2: nat

    ghost predicate Valid() {
      1 <= log2 && cache.Length == Pow2(log2) && mask == cache.Length - 1
    }

    /** `SimpleStringCache(log2Size)`: `2^log2Size` slots, at least two, all
        empty. */
    constructor(log2Size: int)
      requires log2Size <= 30
      ensures Valid() && log2 == (if log2Size < 1 then 1 else log2Size)
      ensures fresh(cache) && forall k | 0 <= k < cache.Length :: cache[k] == null
    {
      var size := 2;
      var i := 1;
      while i < log2Size
        invariant 1 <= i && (i <= log2Size || i == 1) && size == Pow2(i)
      {
        size := size * 2;
        i := i + 1;
      }
      mask := size - 1;
      cache := new Text?[size](_ => null);
      log2 := i;
    }

    /** The slot of a string: the name hash with the bits above the mask
        cleared. The size is a power of two, so that is the hash's remainder
        modulo the size. */
    function Slot(s: seq<Char>): (k: int)
      requires 0 <= mask
      ensures 0 <= k <= mask
    {
      (StructInfo.NameHash(s) as int) % (mask + 1)
    }

    /** `get(chars, len)`: a string with the first `len` characters. The one
        in the slot when its characters are equal; otherwise a new one,
        which takes the slot. */
    method Get(chars: seq<Char>, len: int) returns (value: Text)
      requires Valid() && 0 <= len <= |chars|
      modifies cache
      ensures value.chars == chars[..len]
      ensures cache[Slot(chars[..len])] == value
      ensures forall k | 0 <= k < cache.Length && k != Slot(chars[..len]) :: cache[k] == old(cache[k])
      ensures var held := old(cache[Slot(chars[..len])]);
        if held != null && held.chars == chars[..len] then value == held else fresh(value)
    {
      // The same hash loop as the processor's `calcHash`.
      var hash := StructInfo.CalcHash(chars[..len]);
      var index := (hash as int) % (mask + 1);
      var held := cache[index];
      if held == null {
        value := CreateAndPut(index, chars, len);
        return;
      }
      if |held.chars| != len {
        value := CreateAndPut(index, chars, len);
        return;
      }
      for i := 0 to |held.chars|
        invariant held.chars[..i] == chars[..i]
      {
        if held.chars[i] != chars[i] {
          value := CreateAndPut(index, chars, len);
          return;
        }
        assert held.chars[..i + 1] == held.chars[..i] + [held.chars[i]];
        assert chars[..i + 1] == chars[..i] + [chars[i]];
      }
      assert held.chars == held.chars[..len];
      value := held;
    }

    /** `createAndPut(index, chars, len)`: a new string in slot `index`. */
    method CreateAndPut(index: int, chars: seq<Char>, len: int) returns (value: Text)
      requires 0 <= index < cache.Length && 0 <= len <= |chars|
      modifies cache
      ensures fresh(value) && value.chars == chars[..len]
      ensures cache[index] == value
      ensures forall k | 0 <= k < cache.Length && k != index :: cache[k] == old(cache[k])
    {
      value := new Text(chars[..len]);
      cache[index] := value;
    }
  }

  /** Two lookups of the same characters with nothing in between give the
      same instance: the first leaves it in its slot. */
  method RepeatedGet(strings: SimpleStringCache, chars: seq<Char>, len: int) returns (first: Text, second: Text)
    requires strings.Valid() && 0 <= len <= |chars|
    modifies strings.cache
    ensures first == second && first.chars == chars[..len]
  {
    first := strings.Get(chars, len);
    second := strings.Get(chars, len);
  }

  // ---------------------------------------------------------------------
  // tryFindReader

  /** A converter factory: the readers it creates, by type name. A factory
      that declines a type has no entry for it. */
  type Factory<R> = map<seq<Char>, R>

  /** The position of the first factory that accepts `manifest`, or the
      number of factories when none does. */
  function FirstAccepting<R>(factories: seq<Factory<R>>, manifest: seq<Char>): (i: nat)
    ensures i <= |factories| && (i < |factories| ==> manifest in factories[i])
    ensures forall j | 0 <= j < i :: manifest !in factories[j]
    decreases |factories|
  {
    if factories == [] || manifest in factories[0] then 0
    else 1 + FirstAccepting(factories[1..], manifest)
  }

  /** The reader the first factory that accepts `manifest` creates. */
  function FirstCreated<R>(factories: seq<Factory<R>>, manifest: seq<Char>): Option<R> {
    var i := FirstAccepting(factories, manifest);
    if i < |factories| then Some(factories[i][manifest]) else None
  }

  /** The readers registered with the facade, and the factories it asks
      for a type it has no reader for. */
  class ReaderRegistry<R(==)> {
    var readers: map<seq<Char>, R>
    const factories: seq<Factory<R>>

    constructor(readers: map<seq<Char>, R>, factories: seq<Factory<R>>)
      ensures this.readers == readers && this.factories == factories
    {
      this.readers := readers;
      this.factories := factories;
    }

    /** `tryFindReader(manifest)`: the registered reader; otherwise the
        first one a factory creates, which is registered, so that the next
        lookup skips the factories. */
    method TryFindReader(manifest: seq<Char>) returns (found: Option<R>)
      modifies this
      ensures manifest in old(readers) ==> found == Some(old(readers)[manifest]) && readers == old(readers)
      ensures manifest !in old(readers) ==> found == FirstCreated(factories, manifest)
      ensures manifest !in old(readers) ==>
        readers == if found.Some? then old(readers)[manifest := found.value] else old(readers)
      ensures found.Some? ==> manifest in readers && readers[manifest] == found.value
    {
      if manifest in readers {
        return Some(readers[manifest]);
      }
      found := None;
      var i := 0;
      while i < |factories|
        invariant 0 <= i <= |factories| && readers == old(readers)
        invariant forall j | 0 <= j < i :: manifest !in factories[j]
      {
        if manifest in factories[i] {
          found := Some(factories[i][manifest]);
          readers := readers[manifest := found.value];
          return;
        }
        i := i + 1;
      }
    }
  }

  // ---------------------------------------------------------------------
  // serializeMap

  /** An entry of a `Map<String, Object>` in iteration order: the key, and
      the bytes the value's writer produces, or `None` for a `null` value,
      which `serialize(writer, value)` writes as `null`. */
  datatype Entry = Entry(key: seq<Char>, value: Option<seq<Byte>>)

  /** What `serialize(writer, value)` appends for a value. */
  function ValueBytes(v: Option<seq<Byte>>): seq<Byte> {
    match v
    case None => NULL
    case Some(bs) => bs
  }

  /** One member: the quoted, escaped key, a colon and the value. */
  function EntryBytes(e: Entry): Result<seq<Byte>> {
    var k :- JsonWriter.QuotedString(e.key);
    Ok(k + [COLON] + ValueBytes(e.value))
  }

  /** The first `n` members separated by single commas, in order. */
  function MembersPrefix(entries: seq<Entry>, n: int): Result<seq<Byte>>
    requires 0 <= n <= |entries|
    decreases n
  {
    if n == 0 then Ok([])
    else if n == 1 then EntryBytes(entries[0])
    else
      var init :- MembersPrefix(entries, n - 1);
      var e :- EntryBytes(entries[n - 1]);
      Ok(init + [COMMA] + e)
  }

  /** What `serializeMap` appends: the members between braces. */
  function MapBytes(entries: seq<Entry>): Result<seq<Byte>> {
    var body :- MembersPrefix(entries, |entries|);
    Ok([OBJECT_START] + body + [OBJECT_END])
  }

  /** An empty map is `{}`. */
  lemma MapEmpty()
    ensures MapBytes([]) == Ok([OBJECT_START, OBJECT_END])
  {
    assert [OBJECT_START] + [] + [OBJECT_END] == [OBJECT_START, OBJECT_END];
  }

  /** Printable ASCII other than the quote and the backslash: characters
      `writeString` copies as they are. */
  predicate PlainKey(key: seq<Char>) {
    forall k | 0 <= k < |key| :: 32 <= key[k] < 0x7F && key[k] != QUOTE && key[k] != BACKSLASH
  }

  /** The member of a plain key is `"key":value`. */
  lemma EntryOfPlainKey(key: seq<Char>, v: Option<seq<Byte>>) returns (ascii: seq<Byte>)
    requires PlainKey(key)
    ensures ascii == key
    ensures EntryBytes(Entry(key, v)) == Ok([QUOTE] + ascii + [QUOTE, COLON] + ValueBytes(v))
  {
    JsonWriter.EscapedPlain(key, 0);
    assert key[0..] == key;
    ascii := JsonWriter.Escaped(key).value;
    assert [QUOTE] + ascii + [QUOTE] + [COLON] + ValueBytes(v) == [QUOTE] + ascii + [QUOTE, COLON] + ValueBytes(v);
  }

  /** A map of one entry whose key is plain printable ASCII is
      `{"key":value}`. */
  lemma MapOfPlainKey(key: seq<Char>, v: Option<seq<Byte>>) returns (ascii: seq<Byte>)
    requires PlainKey(key)
    ensures ascii == key
    ensures MapBytes([Entry(key, v)]) ==
      Ok([OBJECT_START, QUOTE] + ascii + [QUOTE, COLON] + ValueBytes(v) + [OBJECT_END])
  {
    ascii := EntryOfPlainKey(key, v);
    var member := [QUOTE] + ascii + [QUOTE, COLON] + ValueBytes(v);
    assert MembersPrefix([Entry(key, v)], 1) == Ok(member);
    assert [OBJECT_START] + member + [OBJECT_END] == [OBJECT_START, QUOTE] + ascii + [QUOTE, COLON] + ValueBytes(v) + [OBJECT_END];
  }

  /** The members can be written exactly when every key can: values are
      given bytes, and only a key can hold an unencodable character. */
  lemma {:induction false} MembersOkIffKeys(entries: seq<Entry>, n: int)
    requires 0 <= n <= |entries|
    ensures MembersPrefix(entries, n).Ok? <==> forall i | 0 <= i < n :: JsonWriter.Escaped(entries[i].key).Ok?
    decreases n
  {
    if 1 < n {
      MembersOkIffKeys(entries, n - 1);
    }
  }

  /** `serializeMap` succeeds exactly when every key can be written. */
  lemma MapOkIffKeys(entries: seq<Entry>)
    ensures MapBytes(entries).Ok? <==> forall i | 0 <= i < |entries| :: JsonWriter.Escaped(entries[i].key).Ok?
  {
    MembersOkIffKeys(entries, |entries|);
  }

  /** An error in the first `k` members is the error of every longer prefix. */
  lemma {:induction false} MembersErrExtends(entries: seq<Entry>, k: int, n: int)
    requires 1 <= k <= n <= |entries| && MembersPrefix(entries, k).Err?
    ensures MembersPrefix(entries, n) == MembersPrefix(entries, k)
    decreases n
  {
    if k < n {
      MembersErrExtends(entries, k, n - 1);
    }
  }

  /** The first `n` members look at nothing after them. */
  lemma {:induction false} MembersPrefixExtend(entries: seq<Entry>, e: Entry, n: int)
    requires 0 <= n <= |entries|
    ensures MembersPrefix(entries + [e], n) == MembersPrefix(entries, n)
    decreases n
  {
    if 1 < n {
      MembersPrefixExtend(entries, e, n - 1);
      assert (entries + [e])[n - 1] == entries[n - 1];
    } else if n == 1 {
      assert (entries + [e])[0] == entries[0];
    }
  }

  /** Adding an entry after the others, as iteration order does, puts a
      comma and that member just before the closing brace. */
  lemma MapSnoc(entries: seq<Entry>, e: Entry)
    requires entries != [] && MapBytes(entries).Ok? && EntryBytes(e).Ok?
    ensures MapBytes(entries + [e]).Ok?
    ensures var old_ := MapBytes(entries).value;
      MapBytes(entries + [e]).value == old_[..|old_| - 1] + [COMMA] + EntryBytes(e).value + [OBJECT_END]
  {
    MembersPrefixExtend(entries, e, |entries|);
    assert (entries + [e])[|entries|] == e;
    var body := MembersPrefix(entries, |entries|).value;
    var m := [OBJECT_START] + body + [OBJECT_END];
    assert m[..|m| - 1] == [OBJECT_START] + body;
  }

  /** `serialize(writer, value)`: `null` for a `null` value, otherwise the
      bytes of the value's writer. */
  method WriteValue(sw: JsonWriter.JsonWriter, v: Option<seq<Byte>>) returns (r: Result<()>)
    requires sw.Valid()
    modifies sw, sw.result
    ensures sw.result == old(sw.result) || fresh(sw.result)
    ensures sw.Valid() && sw.result.Length >= old(sw.result.Length)
    ensures r.Ok? ==> sw.Contents() == old(sw.Contents()) + ValueBytes(v)
    ensures old(sw.Roomy()) ==> r == Ok(())
  {
    match v
    case None =>
      if sw.Roomy() {
        JsonWriter.RoomyFits(sw.result.Length, sw.position);
      }
      r := sw.WriteNull();
    case Some(bs) =>
      sw.WriteAscii(bs);
      r := Ok(());
  }

  /** One member of `serializeMap`: `writeString(key)`, the colon and the
      value. */
  method WriteEntry(sw: JsonWriter.JsonWriter, e: Entry) returns (r: Result<()>)
    requires sw.Valid()
    modifies sw, sw.result
    ensures sw.result == old(sw.result) || fresh(sw.result)
    ensures sw.Valid() && sw.result.Length >= old(sw.result.Length)
    ensures r.Ok? ==> EntryBytes(e).Ok? && sw.Contents() == old(sw.Contents()) + EntryBytes(e).value
    ensures old(sw.Roomy()) ==> r == JsonWriter.Void(EntryBytes(e))
  {
    ghost var before := sw.Contents();
    r := sw.WriteString(e.key);
    if r.Err? {
      assert JsonWriter.QuotedString(e.key).Err?;
      assert EntryBytes(e) == Err(JsonWriter.QuotedString(e.key).error);
      return;
    }
    ghost var key := JsonWriter.QuotedString(e.key).value;
    if sw.Roomy() {
      JsonWriter.RoomyFits(sw.result.Length, sw.position);
    }
    r := sw.WriteByte(COLON);
    if r.Err? {
      return;
    }
    r := WriteValue(sw, e.value);
    if r.Ok? {
      assert EntryBytes(e) == Ok(key + [COLON] + ValueBytes(e.value));
      JsonWriter.Append3(before, key, [COLON], ValueBytes(e.value));
    }
  }

  /** A comma and the entry at `i`, after the first `i` members, which
      follow `start`. Returns the index of the entry after it. */
  method WriteNextEntry(sw: JsonWriter.JsonWriter, entries: seq<Entry>, i: int, ghost start: seq<Byte>)
    returns (r: Result<()>, next: int)
    requires sw.Valid() && 1 <= i < |entries| && MembersPrefix(entries, i).Ok?
    requires sw.Contents() == start + MembersPrefix(entries, i).value
    modifies sw, sw.result
    ensures sw.result == old(sw.result) || fresh(sw.result)
    ensures sw.Valid() && sw.result.Length >= old(sw.result.Length)
    ensures r.Ok? ==> next == i + 1 && MembersPrefix(entries, next).Ok?
    ensures r.Ok? ==> sw.Contents() == start + MembersPrefix(entries, next).value
    ensures old(sw.Roomy()) && r.Err? ==> MembersPrefix(entries, |entries|) == Err(r.error)
  {
    next := i + 1;
    if sw.Roomy() {
      JsonWriter.RoomyFits(sw.result.Length, sw.position);
    }
    r := sw.WriteByte(COMMA);
    if r.Err? {
      return;
    }
    r := WriteEntry(sw, entries[i]);
    if r.Err? {
      if EntryBytes(entries[i]).Err? {
        MembersErrExtends(entries, i + 1, |entries|);
      }
      return;
    }
    JsonWriter.Append3(start, MembersPrefix(entries, i).value, [COMMA], EntryBytes(entries[i]).value);
  }

  /** `serializeMap(value, writer)`: `{`, then the first entry and a comma
      before each further one, in iteration order, then `}`. */
  method SerializeMap(sw: JsonWriter.JsonWriter, entries: seq<Entry>) returns (r: Result<()>)
    requires sw.Valid()
    modifies sw, sw.result
    ensures sw.result == old(sw.result) || fresh(sw.result)
    ensures sw.Valid() && sw.result.Length >= old(sw.result.Length)
    ensures r.Ok? ==> MapBytes(entries).Ok? && sw.Contents() == old(sw.Contents()) + MapBytes(entries).value
    ensures old(sw.Roomy()) ==> r == JsonWriter.Void(MapBytes(entries))
  {
    ghost var before := sw.Contents();
    if sw.Roomy() {
      JsonWriter.RoomyFits(sw.result.Length, sw.position);
    }
    r := sw.WriteByte(OBJECT_START);
    if r.Err? {
      return;
    }
    ghost var start := sw.Contents();
    var size := |entries|;
    if size > 0 {
      r := WriteEntry(sw, entries[0]);
      if r.Err? {
        if EntryBytes(entries[0]).Err? {
          MembersErrExtends(entries, 1, size);
        }
        return;
      }
      var i := 1;
      while i < size
        invariant 1 <= i <= size && sw.Valid() && sw.result.Length >= old(sw.result.Length)
        invariant sw.result == old(sw.result) || fresh(sw.result)
        invariant old(sw.Roomy()) ==> sw.Roomy()
        invariant MembersPrefix(entries, i).Ok?
        invariant sw.Contents() == start + MembersPrefix(entries, i).value
        decreases size - i
      {
        var next;
        r, next := WriteNextEntry(sw, entries, i, start);
        if r.Err? {
          return;
        }
        i := next;
      }
    }
    ghost var body := MembersPrefix(entries, size).value;
    assert sw.Contents() == start + body;
    if sw.Roomy() {
      JsonWriter.RoomyFits(sw.result.Length, sw.position);
    }
    r := sw.WriteByte(OBJECT_END);
    if r.Ok? {
      JsonWriter.Append3(before, [OBJECT_START], body, [OBJECT_END]);
    }
  }
}

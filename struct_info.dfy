/** What the annotation processor knows of one class it generates a
    converter for (`StructInfo`): the hash of a property name that the
    generated code switches on, the check that the hashes of a property's
    alternative names do not clash, the short names of minified output, the
    order of the attributes, the constructor the converter calls and the
    formats it supports.

    Java strings are sequences of UTF-16 code units (`seq<Char>`). The
    attributes, a `LinkedHashMap` keyed by attribute id, are a sequence in
    insertion order whose ids are distinct. */
module StructInfo {
  import opened Java
  import Fnv
  import JsonWriter

  // ---------------------------------------------------------------------
  // calcHash

  /** The bytes `calcHash` folds: each character cut to a signed byte. */
  function NameBytes(name: seq<Char>): (r: seq<Byte>)
    ensures |r| == |name| && forall i | 0 <= i < |name| :: r[i] == ToByte(name[i])
  {
    seq(|name|, i requires 0 <= i < |name| => ToByte(name[i]))
  }

  /** The FNV-1a hash of a name's bytes. */
  function NameHash(name: seq<Char>): bv32 {
    Fnv.Hash(NameBytes(name))
  }

  /** `calcHash(name)`: 32-bit FNV-1a over the characters of the name, each
      cut to a byte. The source keeps the hash in a `long` and returns its
      low 32 bits; exclusive or and multiplication never carry from the
      upper half into the lower, so the loop keeps the lower half only. */
  method CalcHash(name: seq<Char>) returns (hash: bv32)
    ensures hash == NameHash(name)
  {
    ghost var bytes := NameBytes(name);
    hash := Fnv.OFFSET_BASIS;
    var i := 0;
    while i < |name|
      invariant 0 <= i <= |name|
      invariant hash == Fnv.Hash(bytes[..i])
    {
      Fnv.HashSnoc(bytes[..i], bytes[i]);
      assert bytes[..i + 1] == bytes[..i] + [bytes[i]];
      hash := Fnv.Step(hash, ToByte(name[i]));
      i := i + 1;
    }
    assert bytes[..i] == bytes;
  }

  /** A name the writer copies byte for byte: printable ASCII without quote
      or backslash. */
  predicate PlainName(name: seq<Char>) {
    forall i | 0 <= i < |name| :: 32 <= name[i] < 0x7F && name[i] != QUOTE && name[i] != BACKSLASH
  }

  lemma {:induction false} PlainEscapes(name: seq<Char>, i: nat)
    requires PlainName(name) && i <= |name|
    ensures JsonWriter.EscapeFrom(name, i) == Ok(NameBytes(name)[i..])
    decreases |name| - i
  {
    if i < |name| {
      assert JsonWriter.EscapeAt(name, i) == Ok(JsonWriter.Unit([name[i]], 1));
      PlainEscapes(name, i + 1);
      assert NameBytes(name)[i..] == [name[i]] + NameBytes(name)[i + 1..];
    }
  }

  /** For a plain ASCII name, the bytes `calcHash` folds are the bytes the
      writer puts between the quotes of the name, so the generated code's
      hash is the one `JsonReader.calcHash` computes when it reads the name
      back. */
  lemma PlainNameWritten(name: seq<Char>)
    requires PlainName(name)
    ensures JsonWriter.QuotedString(name) == Ok([QUOTE] + NameBytes(name) + [QUOTE])
  {
    PlainEscapes(name, 0);
    assert NameBytes(name)[0..] == NameBytes(name);
  }

  // ---------------------------------------------------------------------
  // checkHashCollision

  /** An attribute as these operations see it (`AttributeInfo`): its id, its
      property name, the explicit alias, the alternative names accepted when
      reading, and the index of `@JsonAttribute(index)`, -1 when absent. */
  datatype Attribute = Attribute(
    id: seq<Char>,
    name: seq<Char>,
    alias: Option<seq<Char>>,
    alternativeNames: seq<seq<Char>>,
    index: int)

  /** The name an attribute is written under. */
  function SerializedName(a: Attribute): seq<Char> {
    if a.alias.Some? then a.alias.value else a.name
  }

  /** The hashes of alternative names that differ from the attribute's own
      hash, in order. */
  function AltHashes(alts: seq<seq<Char>>, own: bv32): (r: seq<bv32>)
    ensures forall k | 0 <= k < |r| :: r[k] != own
    decreases |alts|
  {
    if alts == [] then []
    else
      var rest := AltHashes(alts[..|alts| - 1], own);
      var h := NameHash(alts[|alts| - 1]);
      if h == own then rest else rest + [h]
  }

  /** The hashes an attribute contributes: its own, then its alternatives'. */
  function AttrHashes(a: Attribute): seq<bv32> {
    [NameHash(SerializedName(a))] + AltHashes(a.alternativeNames, NameHash(SerializedName(a)))
  }

  /** The hashes of all attributes, in order. */
  function AllHashes(attrs: seq<Attribute>): seq<bv32>
    decreases |attrs|
  {
    if attrs == [] then [] else AllHashes(attrs[..|attrs| - 1]) + AttrHashes(attrs[|attrs| - 1])
  }

  predicate Repeats(hs: seq<bv32>) {
    exists i, j | 0 <= i < j < |hs| :: hs[i] == hs[j]
  }

  predicate HasAliases(attrs: seq<Attribute>) {
    exists i | 0 <= i < |attrs| :: |attrs[i].alternativeNames| > 0
  }

  lemma RepeatsSnoc(hs: seq<bv32>, x: bv32)
    ensures Repeats(hs + [x]) <==> Repeats(hs) || x in hs
  {
    var t := hs + [x];
    if x in hs {
      var i :| 0 <= i < |hs| && hs[i] == x;
      assert t[i] == t[|hs|];
    }
    if Repeats(hs) {
      var i, j :| 0 <= i < j < |hs| && hs[i] == hs[j];
      assert t[i] == t[j];
    }
    if Repeats(t) {
      var i, j :| 0 <= i < j < |t| && t[i] == t[j];
      if j < |hs| {
        assert hs[i] == hs[j];
      } else {
        assert hs[i] == x;
      }
    }
  }

  lemma AllHashesSnoc(attrs: seq<Attribute>, i: nat)
    requires i < |attrs|
    ensures AllHashes(attrs[..i + 1]) == AllHashes(attrs[..i]) + AttrHashes(attrs[i])
  {
    assert attrs[..i + 1][..i] == attrs[..i];
  }

  lemma AltHashesSnoc(alts: seq<seq<Char>>, k: nat, own: bv32)
    requires k < |alts|
    ensures AltHashes(alts[..k + 1], own) ==
      AltHashes(alts[..k], own) + (if NameHash(alts[k]) == own then [] else [NameHash(alts[k])])
  {
    assert alts[..k + 1][..k] == alts[..k];
  }

  lemma AltHashesStep(seen: seq<bv32>, alts: seq<seq<Char>>, k: nat, own: bv32)
    requires k < |alts|
    ensures var before := seen + AltHashes(alts[..k], own);
      seen + AltHashes(alts[..k + 1], own) ==
      if NameHash(alts[k]) == own then before else before + [NameHash(alts[k])]
  {
    AltHashesSnoc(alts, k, own);
  }

  /** The state of `checkHashCollision` after the hashes `seen`: whether
      one repeats, and, while none does, the set of them. Kept behind
      `Hold` so that it is opened only where a step needs it. */
  ghost predicate Tracked(hasDuplicates: bool, counters: set<bv32>, seen: seq<bv32>) {
    forall u: () {:trigger Hold(u)} :: Hold(u) ==>
      (hasDuplicates <==> Repeats(seen)) && (!hasDuplicates ==> forall x :: x in counters <==> x in seen)
  }

  /** `checkHashCollision`: whether some attribute has alternative names and
      two of the hashes coincide, where an alternative whose hash is its own
      attribute's is not counted. Once a repetition is seen, no more hashes
      are added to the set (the `||` short-circuits). */
  method CheckHashCollision(attrs: seq<Attribute>) returns (r: bool)
    ensures r <==> HasAliases(attrs) && Repeats(AllHashes(attrs))
  {
    var hasAliases, hasDuplicates := false, false;
    var counters: set<bv32> := {};
    ghost var seen: seq<bv32> := [];
    assert Hold(());
    var i := 0;
    while i < |attrs|
      invariant 0 <= i <= |attrs|
      invariant seen == AllHashes(attrs[..i])
      invariant Tracked(hasDuplicates, counters, seen)
      invariant hasAliases <==> HasAliases(attrs[..i])
    {
      var attr := attrs[i];
      if |attr.alternativeNames| > 0 {
        hasAliases := true;
      }
      HasAliasesSnoc(attrs, i);
      hasDuplicates, counters := AddAttribute(attr, hasDuplicates, counters, seen);
      AllHashesSnoc(attrs, i);
      seen := seen + AttrHashes(attr);
      i := i + 1;
    }
    assert attrs[..i] == attrs;
    assert Hold(());
    r := hasAliases && hasDuplicates;
  }

  lemma HasAliasesSnoc(attrs: seq<Attribute>, i: nat)
    requires i < |attrs|
    ensures HasAliases(attrs[..i + 1]) <==> HasAliases(attrs[..i]) || |attrs[i].alternativeNames| > 0
  {
    assert attrs[..i + 1][i] == attrs[i];
    assert forall j | 0 <= j < i :: attrs[..i + 1][j] == attrs[..i][j];
  }

  /** The body of `checkHashCollision`'s loop for one attribute: its own
      hash, then those of its alternative names. */
  method AddAttribute(attr: Attribute, hasDuplicates: bool, counters: set<bv32>, ghost seen: seq<bv32>)
    returns (hasDuplicates': bool, counters': set<bv32>)
    requires Tracked(hasDuplicates, counters, seen)
    ensures Tracked(hasDuplicates', counters', seen + AttrHashes(attr))
  {
    var hash := CalcHash(SerializedName(attr));
    hasDuplicates', counters' := AddHash(hasDuplicates, counters, seen, hash);
    hasDuplicates', counters' := AddAlternatives(attr.alternativeNames, hash, hasDuplicates', counters', seen + [hash]);
    assert seen + [hash] + AltHashes(attr.alternativeNames, hash) == seen + AttrHashes(attr);
  }

  /** `hasDuplicates = hasDuplicates || !counters.add(hash)`, for the hashes
      `seen` so far. */
  method AddHash(hasDuplicates: bool, counters: set<bv32>, ghost seen: seq<bv32>, hash: bv32)
    returns (hasDuplicates': bool, counters': set<bv32>)
    requires Tracked(hasDuplicates, counters, seen)
    ensures Tracked(hasDuplicates', counters', seen + [hash])
  {
    assert Hold(());
    RepeatsSnoc(seen, hash);
    hasDuplicates', counters' := hasDuplicates, counters;
    if !hasDuplicates {
      if hash in counters {
        hasDuplicates' := true;
      } else {
        counters' := counters + {hash};
      }
    }
  }

  /** The inner loop of `checkHashCollision` over an attribute's
      alternative names, `seen` holding the hashes before them. */
  method AddAlternatives(alts: seq<seq<Char>>, hash: bv32, hasDuplicates: bool, counters: set<bv32>, ghost seen: seq<bv32>)
    returns (hasDuplicates': bool, counters': set<bv32>)
    requires Tracked(hasDuplicates, counters, seen)
    ensures Tracked(hasDuplicates', counters', seen + AltHashes(alts, hash))
  {
    hasDuplicates', counters' := hasDuplicates, counters;
    var k := 0;
    assert seen + AltHashes(alts[..k], hash) == seen;
    while k < |alts|
      invariant 0 <= k <= |alts|
      invariant Tracked(hasDuplicates', counters', seen + AltHashes(alts[..k], hash))
    {
      var aliasHash := CalcHash(alts[k]);
      AltHashesStep(seen, alts, k, hash);
      if aliasHash != hash {
        hasDuplicates', counters' := AddHash(hasDuplicates', counters', seen + AltHashes(alts[..k], hash), aliasHash);
      }
      k := k + 1;
    }
    assert alts[..k] == alts;
  }

  // ---------------------------------------------------------------------
  // Minified names

  /** `Integer.toString(n)` for `n >= 0`. */
  function Decimal(n: nat): (r: seq<Char>)
    ensures 1 <= |r| && (n >= 10 ==> 2 <= |r|)
    decreases n
  {
    if n < 10 then ['0' as int + n] else Decimal(n / 10) + ['0' as int + n % 10]
  }

  lemma {:induction false} DecimalInjective(a: nat, b: nat)
    requires Decimal(a) == Decimal(b)
    ensures a == b
    decreases a
  {
    if a >= 10 && b >= 10 {
      var da, db := Decimal(a), Decimal(b);
      assert da[..|da| - 1] == Decimal(a / 10);
      assert db[..|db| - 1] == Decimal(b / 10);
      DecimalInjective(a / 10, b / 10);
      assert a % 10 == b % 10 by {
        assert da[|da| - 1] == db[|db| - 1];
      }
    }
  }

  /** The candidates `buildShortName` tries for `first`, from `start` on. */
  function Candidate(first: Char, k: nat): seq<Char> {
    [first] + Decimal(k)
  }

  function Tried(first: Char, start: nat, next: nat): set<seq<Char>> {
    set k: nat | start <= k < next :: Candidate(first, k)
  }

  lemma NotTried(first: Char, start: nat, next: nat)
    ensures Candidate(first, next) !in Tried(first, start, next)
  {
    if Candidate(first, next) in Tried(first, start, next) {
      var k: nat :| start <= k < next && Candidate(first, k) == Candidate(first, next);
      assert Decimal(k) == Candidate(first, k)[1..];
      assert Decimal(next) == Candidate(first, next)[1..];
      DecimalInjective(k, next);
    }
  }

  /** One more candidate found taken: the untried names shrink. */
  lemma TriedStep(names: set<seq<Char>>, first: Char, start: nat, next: nat)
    requires start < next && Tried(first, start, next - 1) <= names && Candidate(first, next - 1) in names
    ensures Tried(first, start, next) <= names
    ensures |names - Tried(first, start, next)| < |names - Tried(first, start, next - 1)|
  {
    var c := Candidate(first, next - 1);
    NotTried(first, start, next - 1);
    assert Tried(first, start, next) == Tried(first, start, next - 1) + {c};
    assert names - Tried(first, start, next) == (names - Tried(first, start, next - 1)) - {c};
  }

  predicate NonNegative(counters: map<Char, int>) {
    forall c | c in counters :: counters[c] >= 0
  }

  /** `buildShortName(name, names, counters)`: the first character of the
      name when no name so far is that; otherwise that character followed
      by the first number, from the character's counter on, that gives a
      new name. The name is added to `names` and the counter moves past
      it. */
  method BuildShortName(name: seq<Char>, names: set<seq<Char>>, counters: map<Char, int>)
    returns (shortName: seq<Char>, names': set<seq<Char>>, counters': map<Char, int>)
    requires 0 < |name| && NonNegative(counters)
    ensures shortName !in names && names' == names + {shortName}
    ensures 0 < |shortName| && shortName[0] == name[0]
    ensures shortName == [name[0]] <==> [name[0]] !in names
    ensures NonNegative(counters') && counters'.Keys == counters.Keys + {name[0]}
    ensures forall c | c in counters && c != name[0] :: counters'[c] == counters[c]
  {
    var first := name[0];
    shortName := name[..1];
    if shortName !in names {
      return shortName, names + {shortName}, counters[first := 0];
    }
    assert name[..1] == [first];
    var next: nat := if first in counters then counters[first] else 0;
    shortName, next := FreeCandidate(first, next, names);
    names' := names + {shortName};
    counters' := counters[first := next];
  }

  /** The search loop of `buildShortName`: candidates for `first` from
      counter `start` on, until one is not in `names`; `next` is the counter
      after the one used. */
  method FreeCandidate(first: Char, start: nat, names: set<seq<Char>>) returns (shortName: seq<Char>, next: nat)
    ensures start < next && shortName == Candidate(first, next - 1) && 2 <= |shortName|
    ensures shortName !in names && Tried(first, start, next - 1) <= names
  {
    next := start;
    shortName := Candidate(first, next);
    next := next + 1;
    while shortName in names
      invariant start < next && shortName == Candidate(first, next - 1) && 2 <= |shortName|
      invariant Tried(first, start, next - 1) <= names
      decreases |names - Tried(first, start, next - 1)|
    {
      TriedStep(names, first, start, next);
      shortName := Candidate(first, next);
      next := next + 1;
    }
  }

  // ---------------------------------------------------------------------
  // The order of the attributes

  predicate Unindexed(a: Attribute) { a.index == -1 }

  /** The order `sortAttributes` asks for: attributes without an index after
      all others, the rest by ascending index. */
  predicate InOrder(a: Attribute, b: Attribute) {
    Unindexed(b) || (!Unindexed(a) && a.index <= b.index)
  }

  predicate Sorted(s: seq<Attribute>) {
    forall i, j | 0 <= i < j < |s| :: InOrder(s[i], s[j])
  }

  /** `x` inserted after every element that does not come after it. */
  function Insert(s: seq<Attribute>, x: Attribute): (r: seq<Attribute>)
    ensures multiset(r) == multiset(s) + multiset{x}
    decreases |s|
  {
    if s == [] then [x]
    else if !InOrder(s[0], x) then [x] + s
    else
      assert s == [s[0]] + s[1..];
      [s[0]] + Insert(s[1..], x)
  }

  /** Inserting into a sorted sequence keeps it sorted. */
  lemma {:induction false} InsertSorted(s: seq<Attribute>, x: Attribute)
    requires Sorted(s)
    ensures Sorted(Insert(s, x))
    decreases |s|
  {
    if s != [] && InOrder(s[0], x) {
      var rest := Insert(s[1..], x);
      assert Sorted(s[1..]);
      InsertSorted(s[1..], x);
      HeadInOrder(s, x, rest);
      assert Insert(s, x) == [s[0]] + rest;
    }
  }

  /** The head of a sorted sequence comes before everything `x` inserted
      after it leaves behind it. */
  lemma HeadInOrder(s: seq<Attribute>, x: Attribute, rest: seq<Attribute>)
    requires Sorted(s) && 0 < |s| && InOrder(s[0], x)
    requires multiset(rest) == multiset(s[1..]) + multiset{x}
    ensures forall k | 0 <= k < |rest| :: InOrder(s[0], rest[k])
  {
    forall k | 0 <= k < |rest| ensures InOrder(s[0], rest[k]) {
      assert rest[k] in multiset(rest);
      if rest[k] != x {
        assert rest[k] in multiset(s[1..]);
        var m :| 0 <= m < |s[1..]| && s[1..][m] == rest[k];
        assert s[m + 1] == rest[k];
      }
    }
  }

  /** The attributes in the order the comparator asks for. Elements the
      comparator cannot tell apart keep their order. */
  function SortByIndex(s: seq<Attribute>): (r: seq<Attribute>)
    ensures multiset(r) == multiset(s) && Sorted(r)
    decreases |s|
  {
    if s == [] then []
    else
      assert s == s[..|s| - 1] + [s[|s| - 1]];
      InsertSorted(SortByIndex(s[..|s| - 1]), s[|s| - 1]);
      Insert(SortByIndex(s[..|s| - 1]), s[|s| - 1])
  }

  // ---------------------------------------------------------------------
  // Constructor and formats

  /** A constructor of the class: which one, and how many parameters. */
  datatype Ctor = Ctor(id: nat, arity: nat)

  datatype Format = OBJECT | ARRAY

  /** The constructor the converter calls: the annotated one; else none when
      there is no list of matching constructors; else the only one; else the
      first without parameters, if any. */
  method ChooseConstructor(annotated: Option<Ctor>, matching: Option<seq<Ctor>>) returns (c: Option<Ctor>)
    ensures annotated.Some? ==> c == annotated
    ensures annotated.None? && matching.None? ==> c == None
    ensures annotated.None? && matching.Some? && |matching.value| == 1 ==> c == Some(matching.value[0])
    ensures annotated.None? && matching.Some? && |matching.value| != 1 ==>
      (c.None? <==> forall k | 0 <= k < |matching.value| :: matching.value[k].arity != 0)
    ensures annotated.None? && matching.Some? && |matching.value| != 1 && c.Some? ==>
      exists k | 0 <= k < |matching.value| :: matching.value[k] == c.value && c.value.arity == 0 &&
        forall k' | 0 <= k' < k :: matching.value[k'].arity != 0
  {
    if annotated.Some? {
      return annotated;
    }
    if matching.None? {
      return None;
    }
    var ms := matching.value;
    if |ms| == 1 {
      return Some(ms[0]);
    }
    c := None;
    var k := 0;
    while k < |ms|
      invariant 0 <= k <= |ms|
      invariant forall k' | 0 <= k' < k :: ms[k'].arity != 0
    {
      if ms[k].arity == 0 {
        return Some(ms[k]);
      }
      k := k + 1;
    }
  }

  /** A `LinkedHashSet` built from a list: first occurrences, in order. */
  function Distinct(fs: seq<Format>): (r: seq<Format>)
    ensures forall f :: f in r <==> f in fs
    ensures forall i, j | 0 <= i < j < |r| :: r[i] != r[j]
    ensures 0 < |fs| ==> 0 < |r| && r[0] == fs[0]
    decreases |fs|
  {
    if fs == [] then []
    else
      var p := Distinct(fs[..|fs| - 1]);
      if fs[|fs| - 1] in p then p else p + [fs[|fs| - 1]]
  }

  /** The formats of the converter: `{OBJECT}` when none are given. */
  function Formats(formats: Option<seq<Format>>): (r: seq<Format>)
    ensures formats.None? ==> r == [OBJECT]
    ensures formats.Some? ==> forall f :: f in r <==> f in formats.value
    ensures forall i, j | 0 <= i < j < |r| :: r[i] != r[j]
  {
    if formats.None? then [OBJECT] else Distinct(formats.value)
  }

  /** `isObjectFormatFirst`: no formats given, an empty list, or a list
      that starts with `OBJECT`. */
  function ObjectFormatFirst(formats: Option<seq<Format>>): (r: bool)
    ensures r <==> |Formats(formats)| == 0 || Formats(formats)[0] == OBJECT
  {
    formats.None? || |formats.value| == 0 || formats.value[0] == OBJECT
  }

  // ---------------------------------------------------------------------
  // The class

  /** The explicit aliases of the attributes. */
  function Aliases(attrs: seq<Attribute>): set<seq<Char>> {
    set i | 0 <= i < |attrs| && attrs[i].alias.Some? :: attrs[i].alias.value
  }

  function Ids(attrs: seq<Attribute>): set<seq<Char>> {
    set i | 0 <= i < |attrs| :: attrs[i].id
  }

  predicate DistinctIds(attrs: seq<Attribute>) {
    forall i, j | 0 <= i < j < |attrs| :: attrs[i].id != attrs[j].id
  }

  class Info {
    var attributes: seq<Attribute>
    var minifiedNames: map<seq<Char>, seq<Char>>
    const formats: seq<Format>
    const isObjectFormatFirst: bool
    const ctor: Option<Ctor>

    /** The attributes are keyed by their ids, which are Java identifiers
        and so not empty. */
    predicate Valid()
      reads this
    {
      DistinctIds(attributes) && forall i | 0 <= i < |attributes| :: 0 < |attributes[i].id|
    }

    /** The constructor of a class to generate a converter for: no
        attributes yet, the formats with their default, and the constructor
        chosen. */
    constructor(formats: Option<seq<Format>>, annotated: Option<Ctor>, matching: Option<seq<Ctor>>)
      ensures Valid() && attributes == [] && minifiedNames == map[]
      ensures this.formats == Formats(formats) && isObjectFormatFirst == ObjectFormatFirst(formats)
      ensures annotated.Some? ==> ctor == annotated
    {
      attributes := [];
      minifiedNames := map[];
      this.formats := Formats(formats);
      isObjectFormatFirst := ObjectFormatFirst(formats);
      var c := ChooseConstructor(annotated, matching);
      ctor := c;
    }

    /** `hasEmptyCtor()`. */
    predicate HasEmptyCtor()
      reads this
    {
      ctor.Some? && ctor.value.arity == 0
    }

    /** `sortAttributes()`: when some attribute has an index of at least 0,
        the attributes are put in the comparator's order; otherwise they
        stay as they are. */
    method SortAttributes()
      modifies this
      ensures (forall i | 0 <= i < |old(attributes)| :: old(attributes)[i].index < 0) ==> attributes == old(attributes)
      ensures multiset(attributes) == multiset(old(attributes))
      ensures (exists i | 0 <= i < |old(attributes)| :: old(attributes)[i].index >= 0) ==> Sorted(attributes)
      ensures minifiedNames == old(minifiedNames)
    {
      var needsSorting := false;
      var i := 0;
      while i < |attributes|
        invariant 0 <= i <= |attributes| && attributes == old(attributes) && minifiedNames == old(minifiedNames)
        invariant needsSorting <==> exists j | 0 <= j < i :: attributes[j].index >= 0
      {
        needsSorting := needsSorting || attributes[i].index >= 0;
        i := i + 1;
      }
      if needsSorting {
        var all := SortByIndex(attributes);
        attributes := [];
        var k := 0;
        while k < |all|
          invariant 0 <= k <= |all| && attributes == all[..k] && minifiedNames == old(minifiedNames)
        {
          attributes := attributes + [all[k]];
          k := k + 1;
        }
        assert all[..k] == all;
      }
    }

    /** `prepareMinifiedNames()`: an attribute with an alias is written under
        it; every other gets a short name from `buildShortName` that is new
        relative to all aliases and to the short names given before it. */
    method PrepareMinifiedNames()
      requires Valid()
      modifies this
      ensures attributes == old(attributes)
      ensures minifiedNames.Keys == old(minifiedNames).Keys + Ids(attributes)
      ensures forall k | k in old(minifiedNames) && k !in Ids(attributes) :: minifiedNames[k] == old(minifiedNames)[k]
      ensures forall i | 0 <= i < |attributes| && attributes[i].alias.Some? ::
        minifiedNames[attributes[i].id] == attributes[i].alias.value
      ensures forall i | 0 <= i < |attributes| && attributes[i].alias.None? ::
        var n := minifiedNames[attributes[i].id];
        0 < |n| && n[0] == attributes[i].id[0] && n !in Aliases(attributes)
      ensures forall i, j | 0 <= i < j < |attributes| && attributes[i].alias.None? && attributes[j].alias.None? ::
        minifiedNames[attributes[i].id] != minifiedNames[attributes[j].id]
    {
      var m, processed, names := RecordAliases(attributes, minifiedNames);
      m := ShortNames(attributes, m, processed, names);
      minifiedNames := m;
    }
  }

  function AliasedIds(attrs: seq<Attribute>): set<seq<Char>> {
    set i | 0 <= i < |attrs| && attrs[i].alias.Some? :: attrs[i].id
  }

  /** The first loop of `prepareMinifiedNames`: each alias goes into the
      map under its attribute's id, and into `processed` and `names`. */
  method RecordAliases(attrs: seq<Attribute>, minified: map<seq<Char>, seq<Char>>)
    returns (minified': map<seq<Char>, seq<Char>>, processed: set<seq<Char>>, names: set<seq<Char>>)
    requires DistinctIds(attrs)
    ensures processed == AliasedIds(attrs) && names == Aliases(attrs)
    ensures minified'.Keys == minified.Keys + processed
    ensures forall k | k in minified && k !in processed :: minified'[k] == minified[k]
    ensures forall j | 0 <= j < |attrs| && attrs[j].alias.Some? :: minified'[attrs[j].id] == attrs[j].alias.value
  {
    minified', processed, names := minified, {}, {};
    var i := 0;
    while i < |attrs|
      invariant 0 <= i <= |attrs|
      invariant processed == AliasedIds(attrs[..i]) && names == Aliases(attrs[..i])
      invariant minified'.Keys == minified.Keys + processed
      invariant forall k | k in minified && k !in processed :: minified'[k] == minified[k]
      invariant forall j | 0 <= j < i && attrs[j].alias.Some? :: minified'[attrs[j].id] == attrs[j].alias.value
    {
      var p := attrs[i];
      GivenStepFrame(attrs, i, minified');
      if p.alias.Some? {
        minified' := minified'[p.id := p.alias.value];
        processed := processed + {p.id};
        names := names + {p.alias.value};
      }
      PrefixSnoc(attrs, i);
      i := i + 1;
    }
    assert attrs[..i] == attrs;
  }

  lemma PrefixSnoc(attrs: seq<Attribute>, i: nat)
    requires i < |attrs|
    ensures AliasedIds(attrs[..i + 1]) == AliasedIds(attrs[..i]) + (if attrs[i].alias.Some? then {attrs[i].id} else {})
    ensures Aliases(attrs[..i + 1]) == Aliases(attrs[..i]) + (if attrs[i].alias.Some? then {attrs[i].alias.value} else {})
  {
    assert attrs[..i + 1][i] == attrs[i];
    assert forall j | 0 <= j < i :: attrs[..i + 1][j] == attrs[..i][j];
  }

  /** The attributes before `i` without an alias have a short name in
      `names`, starting with their id's first character and equal to no
      alias. */
  predicate Given(attrs: seq<Attribute>, i: nat, m: map<seq<Char>, seq<Char>>, names: set<seq<Char>>)
    requires i <= |attrs|
  {
    forall j | 0 <= j < i && attrs[j].alias.None? ::
      attrs[j].id in m && m[attrs[j].id] in names && 0 < |m[attrs[j].id]| && 0 < |attrs[j].id| &&
      m[attrs[j].id][0] == attrs[j].id[0] && m[attrs[j].id] !in Aliases(attrs)
  }

  /** No two attributes before `i` without an alias share a short name. */
  predicate Apart(attrs: seq<Attribute>, i: nat, m: map<seq<Char>, seq<Char>>)
    requires i <= |attrs|
  {
    forall j, j' | 0 <= j < j' < i && attrs[j].alias.None? && attrs[j'].alias.None? ::
      attrs[j].id in m && attrs[j'].id in m && m[attrs[j].id] != m[attrs[j'].id]
  }

  /** A new short name for attribute `i` keeps both. */
  lemma GivenStep(attrs: seq<Attribute>, i: nat, m: map<seq<Char>, seq<Char>>, names: set<seq<Char>>, n: seq<Char>)
    requires DistinctIds(attrs) && i < |attrs| && attrs[i].alias.None?
    requires Given(attrs, i, m, names) && Apart(attrs, i, m) && Aliases(attrs) <= names
    requires n !in names && 0 < |n| && 0 < |attrs[i].id| && n[0] == attrs[i].id[0]
    ensures Given(attrs, i + 1, m[attrs[i].id := n], names + {n})
    ensures Apart(attrs, i + 1, m[attrs[i].id := n])
  {
    var m' := m[attrs[i].id := n];
    forall j | 0 <= j < i && attrs[j].alias.None?
      ensures m'[attrs[j].id] == m[attrs[j].id]
    {
      assert attrs[j].id != attrs[i].id;
    }
  }

  /** The state of the second loop of `prepareMinifiedNames` before
      attribute `i`: the ids before `i` are in the map, entries of other
      keys and of aliased attributes are as they were, the aliases are in
      `names`, and `Given` and `Apart` hold. Kept behind `Hold`. */
  ghost predicate NamesInv(attrs: seq<Attribute>, minified: map<seq<Char>, seq<Char>>, i: nat,
                           m: map<seq<Char>, seq<Char>>, names: set<seq<Char>>, counters: map<Char, int>)
  {
    forall u: () {:trigger Hold(u)} :: Hold(u) ==>
      i <= |attrs| && NonNegative(counters) && Aliases(attrs) <= names &&
      AliasedIds(attrs) <= minified.Keys && m.Keys == minified.Keys + Ids(attrs[..i]) &&
      (forall k | k in minified && k !in Ids(attrs) :: m[k] == minified[k]) &&
      (forall j | 0 <= j < |attrs| && attrs[j].alias.Some? :: m[attrs[j].id] == minified[attrs[j].id]) &&
      Given(attrs, i, m, names) && Apart(attrs, i, m)
  }

  /** The second loop of `prepareMinifiedNames`: every attribute without an
      alias gets a short name from `buildShortName`. */
  method ShortNames(attrs: seq<Attribute>, minified: map<seq<Char>, seq<Char>>, processed: set<seq<Char>>, names: set<seq<Char>>)
    returns (minified': map<seq<Char>, seq<Char>>)
    requires DistinctIds(attrs) && forall i | 0 <= i < |attrs| :: 0 < |attrs[i].id|
    requires processed == AliasedIds(attrs) && Aliases(attrs) <= names
    requires processed <= minified.Keys
    ensures minified'.Keys == minified.Keys + Ids(attrs)
    ensures forall k | k in minified && k !in Ids(attrs) :: minified'[k] == minified[k]
    ensures forall j | 0 <= j < |attrs| && attrs[j].alias.Some? :: minified'[attrs[j].id] == minified[attrs[j].id]
    ensures forall j | 0 <= j < |attrs| && attrs[j].alias.None? ::
      var n := minified'[attrs[j].id];
      0 < |n| && n[0] == attrs[j].id[0] && n !in Aliases(attrs)
    ensures forall j, j' | 0 <= j < j' < |attrs| && attrs[j].alias.None? && attrs[j'].alias.None? ::
      minified'[attrs[j].id] != minified'[attrs[j'].id]
  {
    minified' := minified;
    var names' := names;
    var counters: map<Char, int> := map[];
    var i := 0;
    assert Ids(attrs[..0]) == {};
    assert Hold(());
    while i < |attrs|
      invariant 0 <= i <= |attrs|
      invariant NamesInv(attrs, minified, i, minified', names', counters)
    {
      minified', names', counters := ShortNameAt(attrs, minified, processed, i, minified', names', counters);
      i := i + 1;
    }
    assert attrs[..i] == attrs;
    assert Hold(());
  }

  /** The body of that loop for attribute `i`: skipped when its id was
      processed, otherwise named by `buildShortName`. */
  method ShortNameAt(attrs: seq<Attribute>, minified: map<seq<Char>, seq<Char>>, processed: set<seq<Char>>, i: nat,
                     m: map<seq<Char>, seq<Char>>, names: set<seq<Char>>, counters: map<Char, int>)
    returns (m': map<seq<Char>, seq<Char>>, names': set<seq<Char>>, counters': map<Char, int>)
    requires DistinctIds(attrs) && i < |attrs| && 0 < |attrs[i].id| && processed == AliasedIds(attrs)
    requires NamesInv(attrs, minified, i, m, names, counters)
    ensures NamesInv(attrs, minified, i + 1, m', names', counters')
  {
    assert Hold(());
    IdsSnoc(attrs, i);
    GivenStepFrame(attrs, i, m);
    var p := attrs[i];
    if p.id in processed {
      AliasStep(attrs, i, m, names);
      m', names', counters' := m, names, counters;
    } else {
      var shortName;
      shortName, names', counters' := BuildShortName(p.id, names, counters);
      GivenStep(attrs, i, m, names, shortName);
      m' := m[p.id := shortName];
    }
  }

  lemma IdsSnoc(attrs: seq<Attribute>, i: nat)
    requires i < |attrs|
    ensures Ids(attrs[..i + 1]) == Ids(attrs[..i]) + {attrs[i].id}
  {
    assert attrs[..i + 1][i] == attrs[i];
    assert forall j | 0 <= j < i :: attrs[..i + 1][j] == attrs[..i][j];
  }

  /** An attribute with an alias changes neither. */
  lemma AliasStep(attrs: seq<Attribute>, i: nat, m: map<seq<Char>, seq<Char>>, names: set<seq<Char>>)
    requires DistinctIds(attrs) && i < |attrs| && attrs[i].id in AliasedIds(attrs)
    requires Given(attrs, i, m, names) && Apart(attrs, i, m)
    ensures attrs[i].alias.Some?
    ensures Given(attrs, i + 1, m, names) && Apart(attrs, i + 1, m)
  {
  }

  /** Attribute `i`'s id is no other attribute's. */
  lemma GivenStepFrame(attrs: seq<Attribute>, i: nat, m: map<seq<Char>, seq<Char>>)
    requires DistinctIds(attrs) && i < |attrs|
    ensures forall j | 0 <= j < |attrs| && j != i :: attrs[j].id != attrs[i].id
  {
  }
}

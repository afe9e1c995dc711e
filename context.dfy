/** The processor's code-generation context: the text of type references in
    generated code, the default value of an attribute, and the order in
    which a class's attributes are written and read. */
module Context {
  import opened Java
  import Analysis
  import StructInfo

  type Attribute = StructInfo.Attribute

  // ---------------------------------------------------------------------
  // Type text

  /** `s.indexOf(c)`: the first position of `c`, or -1. */
  function IndexOf(s: string, c: char): (r: int)
    ensures r == -1 <==> c !in s
    ensures r != -1 ==> 0 <= r < |s| && s[r] == c && c !in s[..r]
    decreases |s|
  {
    if s == [] then -1
    else if s[0] == c then 0
    else
      var k := IndexOf(s[1..], c);
      if k == -1 then -1
      else
        assert s[..k + 1] == [s[0]] + s[1..][..k];
        k + 1
  }

  /** `s.lastIndexOf(c)`: the last position of `c`, or -1. */
  function LastIndexOf(s: string, c: char): (r: int)
    ensures r == -1 <==> c !in s
    ensures r != -1 ==> 0 <= r < |s| && s[r] == c && c !in s[r + 1..]
    decreases |s|
  {
    if s == [] then -1
    else if s[|s| - 1] == c then |s| - 1
    else
      var k := LastIndexOf(s[..|s| - 1], c);
      if k != -1 then
        assert s[k + 1..] == s[..|s| - 1][k + 1..] + [s[|s| - 1]];
        k
      else
        assert s == s[..|s| - 1] + [s[|s| - 1]];
        -1
  }

  predicate StartsWith(s: string, prefix: string) {
    prefix <= s
  }

  /** `nonGenericObject(type)`: the boxed name up to its first `<`. */
  function NonGenericObject(t: string): (r: string)
    ensures var o := Analysis.ObjectName(t);
      r <= o && '<' !in r && (|r| < |o| ==> o[|r|] == '<')
  {
    var objectType := Analysis.ObjectName(t);
    var genInd := IndexOf(objectType, '<');
    if genInd == -1 then objectType else objectType[..genInd]
  }

  const TYPE_DEFINITION_START: string := "new com.dslplatform.json.runtime.TypeDefinition<"
  const TYPE_DEFINITION_END: string := ">(){}.type"

  /** `typeOrClass(objectType, typeName)`: a class literal for the object
      type itself and for a name without type arguments, and a type token
      for a generic one. */
  function TypeOrClass(objectType: string, typeName: string): (r: string)
    ensures (objectType == typeName || '<' !in typeName) <==> r == typeName + ".class"
    ensures !(objectType == typeName || '<' !in typeName) ==>
      r == TYPE_DEFINITION_START + typeName + TYPE_DEFINITION_END
  {
    if objectType == typeName then objectType + ".class"
    else
      var genInd := IndexOf(typeName, '<');
      if genInd == -1 then typeName + ".class"
      else
        var r := TYPE_DEFINITION_START + typeName + TYPE_DEFINITION_END;
        assert |r| != |typeName + ".class"|;
        r
  }

  // ---------------------------------------------------------------------
  // getDefault

  /** What `getDefault` reads of an attribute: its type name, whether it is
      declared not null, and which collection kind it is. */
  datatype AttributeType = AttributeType(
    typeName: string,
    notNull: bool,
    isArray: bool,
    isList: bool,
    isSet: bool,
    isMap: bool)

  /** What `getDefault` reads of an analysed class used as an attribute's
      type: the qualified call target of an annotated factory without
      parameters, whether it has a converter and an empty constructor, and
      its enum constants when it is an enum. */
  datatype Target = Target(
    noArgFactory: Option<string>,
    hasConverter: bool,
    hasEmptyCtor: bool,
    isEnum: bool,
    constants: seq<string>)

  /** The type name of an array attribute without its type arguments or,
      when it has none, without its last `[`. */
  function RawArrayType(t: string): (r: string)
    ensures '<' !in r && r <= t
  {
    var genIndex := IndexOf(t, '<');
    var arrIndex := LastIndexOf(t, '[');
    if genIndex != -1 then t[..genIndex]
    else if arrIndex != -1 then t[..arrIndex]
    else t
  }

  /** A default for the type name or, for a generic type, for its raw name. */
  function MappedDefault(t: string, defaults: map<string, string>): Option<string> {
    var genIndex := IndexOf(t, '<');
    if t in defaults then Some(defaults[t])
    else if genIndex != -1 && t[..genIndex] in defaults then Some(defaults[t[..genIndex]])
    else None
  }

  /** `getDefault(attr)`: the expression generated code uses for an
      attribute that the input does not contain. A mapped default (the
      primitives and `Optional` types) wins; a nullable attribute is then
      `null`; a not-null one takes its inlined converter's default, an
      empty array or collection, or what its own analysed class offers. */
  function GetDefault(attr: AttributeType, defaults: map<string, string>,
                      inlinedDefaults: map<string, string>, structs: map<string, Target>): (r: string)
    ensures MappedDefault(attr.typeName, defaults).Some? ==> r == MappedDefault(attr.typeName, defaults).value
    ensures MappedDefault(attr.typeName, defaults).None? && !attr.notNull ==> r == "null"
    ensures MappedDefault(attr.typeName, defaults).None? && attr.notNull && attr.typeName !in inlinedDefaults ==>
      (attr.isArray ==> r == "new " + RawArrayType(attr.typeName) + "[]{}") &&
      (!attr.isArray && attr.isList && StartsWith(attr.typeName, "java.util.List<") ==> r == "java.util.Collections.emptyList()") &&
      (!attr.isArray && attr.isSet && StartsWith(attr.typeName, "java.util.Set<") ==> r == "java.util.Collections.emptySet()") &&
      (!attr.isArray && attr.isMap && StartsWith(attr.typeName, "java.util.Map<") ==> r == "java.util.Collections.emptyMap()")
    ensures MappedDefault(attr.typeName, defaults).None? && attr.notNull && attr.typeName in inlinedDefaults ==>
      r == inlinedDefaults[attr.typeName]
    ensures (MappedDefault(attr.typeName, defaults).None? && attr.notNull && attr.typeName !in inlinedDefaults &&
             !attr.isArray && attr.typeName !in structs &&
             !StartsWith(attr.typeName, "java.util.List<") && !StartsWith(attr.typeName, "java.util.Set<") &&
             !StartsWith(attr.typeName, "java.util.Map<")) ==> r == "null"
  {
    var t := attr.typeName;
    var mapped := MappedDefault(t, defaults);
    CollectionPrefixesExclusive(t);
    if mapped.Some? then mapped.value
    else if !attr.notNull then "null"
    else if t in inlinedDefaults then inlinedDefaults[t]
    else if attr.isArray then "new " + RawArrayType(t) + "[]{}"
    else if attr.isList && StartsWith(t, "java.util.List<") then "java.util.Collections.emptyList()"
    else if attr.isSet && StartsWith(t, "java.util.Set<") then "java.util.Collections.emptySet()"
    else if attr.isMap && StartsWith(t, "java.util.Map<") then "java.util.Collections.emptyMap()"
    else if t in structs then
      var target := structs[t];
      if target.noArgFactory.Some? then target.noArgFactory.value + "()"
      else if !target.hasConverter && target.hasEmptyCtor then "new " + t + "()"
      else if target.isEnum && |target.constants| > 0 then t + "." + target.constants[0]
      else "null"
    else "null"
  }

  /** No type name starts with two of the three collection prefixes, so at
      most one empty-collection default fits. */
  lemma CollectionPrefixesExclusive(t: string)
    ensures !(StartsWith(t, "java.util.List<") && StartsWith(t, "java.util.Set<"))
    ensures !(StartsWith(t, "java.util.List<") && StartsWith(t, "java.util.Map<"))
    ensures !(StartsWith(t, "java.util.Set<") && StartsWith(t, "java.util.Map<"))
  {
    if StartsWith(t, "java.util.List<") {
      assert t[10] == 'L';
    }
    if StartsWith(t, "java.util.Set<") {
      assert t[10] == 'S';
    }
  }

  // ---------------------------------------------------------------------
  // sortedAttributes

  /** The inherited attributes whose id is not one of the class's own. */
  function NotOwn(own: seq<Attribute>, inherited: seq<Attribute>): (r: seq<Attribute>)
    ensures multiset(r) <= multiset(inherited)
    ensures forall x | x in r :: x.id !in StructInfo.Ids(own)
    ensures forall x | x in inherited && x.id !in StructInfo.Ids(own) :: x in r
    decreases |inherited|
  {
    if inherited == [] then []
    else
      var init := inherited[..|inherited| - 1];
      var ai := inherited[|inherited| - 1];
      assert inherited == init + [ai];
      var rest := NotOwn(own, init);
      if ai.id in StructInfo.Ids(own) then rest else rest + [ai]
  }

  /** The attributes `sortedAttributes` starts from. */
  function Collected(own: seq<Attribute>, inherited: seq<Attribute>, includeInherited: bool): seq<Attribute> {
    if includeInherited then own + NotOwn(own, inherited) else own
  }

  /** `remove(i)` followed by `add(at, s[i])`: element `i` moved to `at`,
      the ones from `at` to `i` one place up. */
  function Move(s: seq<Attribute>, i: nat, at: nat): (r: seq<Attribute>)
    requires at <= i < |s|
    ensures |r| == |s|
    ensures forall k | 0 <= k < |s| ::
      r[k] == if k < at || i < k then s[k] else if k == at then s[i] else s[k - 1]
  {
    seq(|s|, k requires 0 <= k < |s| => if k < at || i < k then s[k] else if k == at then s[i] else s[k - 1])
  }

  /** Moving an element keeps the elements. */
  lemma MoveMultiset(s: seq<Attribute>, i: nat, at: nat)
    requires at <= i < |s|
    ensures multiset(Move(s, i, at)) == multiset(s)
  {
    assert Move(s, i, at) == s[..at] + [s[i]] + s[at..i] + s[i + 1..];
    assert s == s[..at] + s[at..i] + [s[i]] + s[i + 1..];
  }

  /** The first position from `from` on of an attribute called `name`, or
      the length when there is none. */
  method FindName(s: seq<Attribute>, from: nat, name: seq<Char>) returns (i: nat)
    requires from <= |s|
    ensures from <= i <= |s| && (i < |s| ==> s[i].name == name)
    ensures forall k | from <= k < i :: s[k].name != name
  {
    i := from;
    while i < |s|
      invariant from <= i <= |s|
      invariant forall k | from <= k < i :: s[k].name != name
    {
      if s[i].name == name {
        return;
      }
      i := i + 1;
    }
  }

  /** The sorted attributes up to the first one without an index. */
  method LeadingIndexed(s: seq<Attribute>) returns (n: nat)
    ensures n <= |s| && (forall k | 0 <= k < n :: s[k].index != -1) && (n < |s| ==> s[n].index == -1)
  {
    n := 0;
    while n < |s| && s[n].index != -1
      invariant n <= |s| && forall k | 0 <= k < n :: s[k].index != -1
    {
      n := n + 1;
    }
  }

  /** The unindexed attributes from `lead` on, the parameters before `p`
      that were found at `lead + t`, in parameter order, and the ones not
      found, whose names no attribute from `next` on has. */
  ghost predicate Placed(result: seq<Attribute>, lead: nat, next: nat, parameters: seq<seq<Char>>, p: nat, matched: seq<nat>) {
    forall u: () {:trigger Hold(u)} :: Hold(u) ==>
      lead <= next <= |result| && p <= |parameters| && |matched| == next - lead &&
      (forall k | lead <= k < |result| :: result[k].index == -1) &&
      (forall t | 0 <= t < |matched| :: matched[t] < p && result[lead + t].name == parameters[matched[t]]) &&
      (forall t, t' | 0 <= t < t' < |matched| :: matched[t] < matched[t']) &&
      (forall q | 0 <= q < p && q !in matched :: forall k | next <= k < |result| :: result[k].name != parameters[q])
  }

  /** The first loop of `sortedAttributes`: the class's attributes, then
      the inherited ones whose id it does not have. */
  method Collect(own: seq<Attribute>, inherited: seq<Attribute>, includeInherited: bool) returns (all: seq<Attribute>)
    ensures all == Collected(own, inherited, includeInherited)
  {
    all := own;
    if includeInherited {
      for k := 0 to |inherited|
        invariant all == own + NotOwn(own, inherited[..k])
      {
        assert inherited[..k + 1][..k] == inherited[..k];
        if inherited[k].id !in StructInfo.Ids(own) {
          all := all + [inherited[k]];
        }
      }
      assert inherited[..|inherited|] == inherited;
    }
  }

  /** `sortedAttributes(info, includeInherited)`: the class's attributes and,
      when asked, the inherited ones it does not have; those with an index
      first, in ascending order; then the attributes named by the
      constructor's or factory's parameters, in parameter order; then the
      rest. */
  method SortedAttributes(own: seq<Attribute>, inherited: seq<Attribute>, includeInherited: bool,
                          parameters: seq<seq<Char>>)
    returns (result: seq<Attribute>, ghost lead: nat, ghost matched: seq<nat>)
    ensures multiset(result) == multiset(Collected(own, inherited, includeInherited))
    ensures lead <= |result| && StructInfo.Sorted(result[..lead])
    ensures forall k | 0 <= k < |result| :: (k < lead <==> result[k].index != -1)
    ensures lead + |matched| <= |result|
    ensures forall t | 0 <= t < |matched| :: matched[t] < |parameters| && result[lead + t].name == parameters[matched[t]]
    ensures forall t, t' | 0 <= t < t' < |matched| :: matched[t] < matched[t']
    ensures forall q | 0 <= q < |parameters| && q !in matched ::
      forall k | lead + |matched| <= k < |result| :: result[k].name != parameters[q]
  {
    var all := Collect(own, inherited, includeInherited);
    var sorted := StructInfo.SortByIndex(all);
    var firstNonSet := LeadingIndexed(sorted);
    lead := firstNonSet;
    UnindexedTail(sorted, lead);
    result := sorted;
    matched := [];
    if |parameters| > 0 {
      result, matched := PlaceParameters(sorted, firstNonSet, parameters);
    } else {
      assert Hold(());
    }
    assert Hold(());
    SamePrefix(result, sorted, lead);
  }

  lemma SamePrefix(a: seq<Attribute>, b: seq<Attribute>, n: nat)
    requires n <= |a| && n <= |b| && a[..n] == b[..n]
    ensures forall k | 0 <= k < n :: a[k] == b[k]
  {
    forall k | 0 <= k < n ensures a[k] == b[k] {
      assert a[..n][k] == b[..n][k];
    }
  }

  /** The loop over the parameters of the selected constructor or factory:
      each one moves the first attribute of its name after the ones placed
      so far, looking only past them. */
  method PlaceParameters(sorted: seq<Attribute>, lead: nat, parameters: seq<seq<Char>>)
    returns (result: seq<Attribute>, ghost matched: seq<nat>)
    requires lead <= |sorted| && forall k | lead <= k < |sorted| :: sorted[k].index == -1
    ensures |result| == |sorted| && multiset(result) == multiset(sorted) && result[..lead] == sorted[..lead]
    ensures Placed(result, lead, lead + |matched|, parameters, |parameters|, matched)
  {
    result := sorted;
    matched := [];
    var firstNonSet := lead;
    assert Hold(());
    for p := 0 to |parameters|
      invariant |result| == |sorted| && multiset(result) == multiset(sorted) && result[..lead] == sorted[..lead]
      invariant Placed(result, lead, firstNonSet, parameters, p, matched)
    {
      var i := FindName(result, firstNonSet, parameters[p]);
      result, firstNonSet, matched := PlaceParameter(result, lead, firstNonSet, parameters, p, matched, i);
    }
    assert Hold(());
  }

  /** One parameter of the loop: the attribute found at `i`, if any, moves
      to `next`, after the ones placed before it. */
  method PlaceParameter(result: seq<Attribute>, ghost lead: nat, next: nat, parameters: seq<seq<Char>>, p: nat,
                        ghost matched: seq<nat>, i: nat)
    returns (result': seq<Attribute>, next': nat, ghost matched': seq<nat>)
    requires p < |parameters| && lead <= next <= i <= |result| && Placed(result, lead, next, parameters, p, matched)
    requires i < |result| ==> result[i].name == parameters[p]
    requires forall k | next <= k < i :: result[k].name != parameters[p]
    ensures |result'| == |result| && multiset(result') == multiset(result) && result'[..lead] == result[..lead]
    ensures Placed(result', lead, next', parameters, p + 1, matched')
  {
    if i < |result| {
      if next != i {
        result' := Move(result, i, next);
      } else {
        result' := result;
        assert result' == Move(result, i, next);
      }
      MoveMultiset(result, i, next);
      PlacedFound(result, lead, next, parameters, p, matched, i);
      next', matched' := next + 1, matched + [p];
    } else {
      PlacedMissing(result, lead, next, parameters, p, matched);
      result', next', matched' := result, next, matched;
    }
  }

  /** The attribute found for parameter `p` moves to `next`: it extends the
      placed block, and every attribute after it comes from at or after
      `next`, so it keeps the names it had. */
  lemma PlacedFound(result: seq<Attribute>, lead: nat, next: nat, parameters: seq<seq<Char>>, p: nat,
                    matched: seq<nat>, i: nat)
    requires p < |parameters| && lead <= next <= i < |result| && Placed(result, lead, next, parameters, p, matched)
    requires result[i].name == parameters[p]
    ensures Move(result, i, next)[..lead] == result[..lead]
    ensures Placed(Move(result, i, next), lead, next + 1, parameters, p + 1, matched + [p])
  {
    assert Hold(());
    var r := Move(result, i, next);
    var m' := matched + [p];
    assert r[..lead] == result[..lead];
    forall k | lead <= k < |r| ensures r[k].index == -1 {
      var k' := if k < next || i < k then k else if k == next then i else k - 1;
      assert r[k] == result[k'];
    }
    forall t | 0 <= t < |m'| ensures m'[t] < p + 1 && r[lead + t].name == parameters[m'[t]] {
      if t < |matched| {
        assert r[lead + t] == result[lead + t];
      }
    }
    forall q, k | 0 <= q < p + 1 && q !in m' && next + 1 <= k < |r| ensures r[k].name != parameters[q] {
      var k' := if i < k then k else k - 1;
      assert r[k] == result[k'];
    }
    assert Hold(());
  }

  /** No attribute is called like parameter `p`: nothing moves. */
  lemma PlacedMissing(result: seq<Attribute>, lead: nat, next: nat, parameters: seq<seq<Char>>, p: nat,
                      matched: seq<nat>)
    requires p < |parameters| && Placed(result, lead, next, parameters, p, matched)
    requires forall k | next <= k < |result| :: result[k].name != parameters[p]
    ensures Placed(result, lead, next, parameters, p + 1, matched)
  {
    assert Hold(());
    forall t | 0 <= t < |matched| ensures matched[t] < p + 1 {
    }
    assert Hold(());
  }

  /** In a sorted sequence, everything after the first unindexed attribute
      is unindexed, and the indexed prefix is sorted. */
  lemma UnindexedTail(s: seq<Attribute>, n: nat)
    requires StructInfo.Sorted(s) && n <= |s| && (n < |s| ==> s[n].index == -1)
    ensures forall k | n <= k < |s| :: s[k].index == -1
    ensures StructInfo.Sorted(s[..n])
  {
    forall k | n < k < |s| ensures s[k].index == -1 {
      assert StructInfo.InOrder(s[n], s[k]);
    }
  }
}

/** The name rules and consistency checks of the annotation processor's
    analysis: boxed type names, bean property names, and the checks that
    flag a mixin's discriminator and implementations, and an array-format
    class's indexes, as errors. */
module Analysis {
  import opened Java
  import StructInfo

  // ---------------------------------------------------------------------
  // objectName
  //
  // Type and member names of the processor are text it builds source code
  // from; they are Dafny strings here.

  /** The `java.lang` box of one of the eight primitive type names. */
  function Box(t: string): (r: Option<string>)
    ensures r.Some? ==> |t| <= 7 && 14 <= |r.value|
  {
    if t == "int" then Some("java.lang.Integer")
    else if t == "long" then Some("java.lang.Long")
    else if t == "double" then Some("java.lang.Double")
    else if t == "float" then Some("java.lang.Float")
    else if t == "char" then Some("java.lang.Character")
    else if t == "byte" then Some("java.lang.Byte")
    else if t == "short" then Some("java.lang.Short")
    else if t == "boolean" then Some("java.lang.Boolean")
    else None
  }

  /** `objectName(type)`: the box of a primitive type name, any other name
      unchanged. The result is never a primitive name. */
  function ObjectName(t: string): (r: string)
    ensures Box(t).Some? ==> r == Box(t).value
    ensures Box(t).None? ==> r == t
    ensures Box(r).None?
  {
    match Box(t)
    case Some(boxed) => boxed
    case None => t
  }

  /** Boxing twice is boxing once. */
  lemma ObjectNameIdempotent(t: string)
    ensures ObjectName(ObjectName(t)) == ObjectName(t)
  {
  }

  // ---------------------------------------------------------------------
  // beanOrActualName

  predicate IsUpper(c: char) { 'A' <= c <= 'Z' }
  predicate IsLower(c: char) { 'a' <= c <= 'z' }

  /** `Character.toLowerCase` on ASCII letters. */
  function Lower(c: char): (r: char)
    ensures IsUpper(c) ==> IsLower(r)
  {
    if IsUpper(c) then (c as int + 32) as char else c
  }

  /** `String.toLowerCase`, character by character. */
  function LowerAll(s: string): (r: string)
    ensures |r| == |s| && forall i | 0 <= i < |s| :: r[i] == Lower(s[i])
  {
    seq(|s|, i requires 0 <= i < |s| => Lower(s[i]))
  }

  /** `s.toUpperCase().equals(s)`: no lower-case letter in `s`. */
  predicate NoLower(s: string) {
    forall i | 0 <= i < |s| :: !IsLower(s[i])
  }

  /** How many characters of a bean accessor's prefix are stripped: two for
      `isX` when the property is boolean, three for `getX` and `setX`, none
      otherwise. The letter after the prefix must be upper case. */
  function PrefixLength(name: string, isBoolean: bool): (k: nat)
    ensures k == 0 || (k < |name| && IsUpper(name[k]))
  {
    if isBoolean && |name| > 2 && name[..2] == "is" && IsUpper(name[2]) then 2
    else if |name| > 3 && (name[..3] == "get" || name[..3] == "set") && IsUpper(name[3]) then 3
    else 0
  }

  /** The property name after the prefix: a single letter is lower-cased,
      a remainder without lower-case letters is kept, and otherwise only the
      first letter is lower-cased. */
  function Decapitalize(after: string): string
    requires 0 < |after|
  {
    if |after| == 1 then LowerAll(after)
    else if NoLower(after) then after
    else [Lower(after[0])] + after[1..]
  }

  /** `beanOrActualName(name, isBoolean)`: the property name of an accessor.
      Stripping changes nothing but the case of the remainder, and an
      all-upper-case remainder of two letters or more is kept as it is. */
  function BeanOrActualName(name: string, isBoolean: bool): (r: string)
    ensures PrefixLength(name, isBoolean) == 0 ==> r == name
    ensures var k := PrefixLength(name, isBoolean);
      k > 0 ==> |r| == |name| - k && LowerAll(r) == LowerAll(name[k..])
    ensures var k := PrefixLength(name, isBoolean);
      k > 0 && (|name| == k + 1 || !NoLower(name[k..])) ==> IsLower(r[0]) && r[1..] == name[k + 1..]
    ensures var k := PrefixLength(name, isBoolean);
      k > 0 && |name| >= k + 2 && NoLower(name[k..]) ==> r == name[k..]
  {
    var k := PrefixLength(name, isBoolean);
    if k == 0 then name
    else
      var after := name[k..];
      var r := Decapitalize(after);
      assert LowerAll(r) == LowerAll(after) by {
        if |after| > 1 && !NoLower(after) {
          assert LowerAll(r)[0] == Lower(Lower(after[0]));
        }
      }
      r
  }

  /** The cases the processor's casing test checks: `getU` names `u` and
      `getURI` names `URI`. */
  lemma CorrectCasing()
    ensures BeanOrActualName("getU", false) == "u"
    ensures BeanOrActualName("getURI", false) == "URI"
  {
    assert PrefixLength("getU", false) == 3 by { assert "getU"[..3] == "get"; }
    assert "getU"[3..] == "U";
    assert PrefixLength("getURI", false) == 3 by { assert "getURI"[..3] == "get"; }
    assert "getURI"[3..] == "URI";
  }

  /** `isActive` names `active` only for a boolean property. */
  lemma BooleanPrefix()
    ensures BeanOrActualName("isActive", true) == "active"
    ensures BeanOrActualName("isActive", false) == "isActive"
  {
    assert PrefixLength("isActive", true) == 2 by { assert "isActive"[..2] == "is"; }
    assert PrefixLength("isActive", false) == 0 by { assert "isActive"[..3] != "get" && "isActive"[..3] != "set"; }
    assert "isActive"[2..] == "Active";
    assert !NoLower("Active") by { assert IsLower("Active"[1]); }
    assert Lower('A') == 'a';
    assert Decapitalize("Active") == ['a'] + "ctive";
  }

  // ---------------------------------------------------------------------
  // Mixin checks

  /** A character that a discriminator cannot hold: a control character,
      a quote, a backslash or anything beyond ASCII. */
  predicate BadDiscriminatorChar(c: Char) {
    c < 32 || c == '"' as int || c == '\\' as int || c > 126
  }

  /** The scan for an invalid discriminator character: the index of the
      first one, or -1 when there is none. */
  method InvalidCharAt(discriminator: seq<Char>) returns (at: int)
    ensures at == -1 <==> forall i | 0 <= i < |discriminator| :: !BadDiscriminatorChar(discriminator[i])
    ensures at != -1 ==> 0 <= at < |discriminator| && BadDiscriminatorChar(discriminator[at])
    ensures forall i | 0 <= i < at :: !BadDiscriminatorChar(discriminator[i])
  {
    at := -1;
    var i := 0;
    while i < |discriminator|
      invariant 0 <= i <= |discriminator|
      invariant forall j | 0 <= j < i :: !BadDiscriminatorChar(discriminator[j])
    {
      if BadDiscriminatorChar(discriminator[i]) {
        at := i;
        return;
      }
      i := i + 1;
    }
  }

  /** An implementation of a mixin: its `deserializeName`, its qualified
      class name, and the ids of its attributes. */
  datatype Implementation = Implementation(deserializeName: seq<Char>, qualifiedName: seq<Char>, attributeIds: set<seq<Char>>)

  /** The name a mixin's implementation is written and read under. */
  function ActualName(im: Implementation): seq<Char> {
    if im.deserializeName == [] then im.qualifiedName else im.deserializeName
  }

  predicate HasEscapeChars(s: seq<Char>) {
    '\\' as int in s || '"' as int in s
  }

  /** Two of the first `n` implementations share a name. */
  predicate DuplicateBefore(impls: seq<Implementation>, n: nat)
    requires n <= |impls|
  {
    exists i, j | 0 <= i < j < n :: ActualName(impls[i]) == ActualName(impls[j])
  }

  /** One of the first `n` implementations has an attribute named like the
      discriminator. */
  predicate ConflictBefore(discriminator: seq<Char>, impls: seq<Implementation>, n: nat)
    requires n <= |impls|
  {
    exists i | 0 <= i < n :: discriminator in impls[i].attributeIds
  }

  /** One of the first `n` implementations has a name with a quote or a
      backslash. */
  predicate EscapeBefore(impls: seq<Implementation>, n: nat)
    requires n <= |impls|
  {
    exists i | 0 <= i < n :: HasEscapeChars(ActualName(impls[i]))
  }

  /** What makes a mixin's implementations wrong: an attribute named like
      the discriminator, a name given twice, or a name with a quote or a
      backslash. */
  predicate ImplementationError(discriminator: seq<Char>, impls: seq<Implementation>) {
    ConflictBefore(discriminator, impls, |impls|) || DuplicateBefore(impls, |impls|) || EscapeBefore(impls, |impls|)
  }

  /** The mixin block of the analysis: the discriminator scan, then the
      implementations one by one with the set of names seen so far. A name
      seen before is reported as a duplicate and not checked again. */
  method CheckMixin(discriminator: seq<Char>, impls: seq<Implementation>) returns (hasError: bool, invalidCharAt: int)
    ensures invalidCharAt == -1 <==> forall i | 0 <= i < |discriminator| :: !BadDiscriminatorChar(discriminator[i])
    ensures hasError <==> invalidCharAt != -1 || ImplementationError(discriminator, impls)
  {
    invalidCharAt := InvalidCharAt(discriminator);
    hasError := invalidCharAt != -1;
    var names: set<seq<Char>> := {};
    var i := 0;
    while i < |impls|
      invariant 0 <= i <= |impls|
      invariant names == set j | 0 <= j < i :: ActualName(impls[j])
      invariant hasError <==> (invalidCharAt != -1 || ConflictBefore(discriminator, impls, i) ||
                               DuplicateBefore(impls, i) || EscapeBefore(impls, i))
    {
      var actualName := ActualName(impls[i]);
      DuplicateStep(impls, i);
      EscapeStep(impls, i);
      if discriminator in impls[i].attributeIds {
        hasError := true;
      }
      if actualName in names {
        hasError := true;
      } else {
        if HasEscapeChars(actualName) {
          hasError := true;
        }
        names := names + {actualName};
      }
      i := i + 1;
    }
  }

  /** Implementation `i` adds a duplicate exactly when its name was seen. */
  lemma DuplicateStep(impls: seq<Implementation>, i: nat)
    requires i < |impls|
    ensures DuplicateBefore(impls, i + 1) <==>
      DuplicateBefore(impls, i) || ActualName(impls[i]) in set j | 0 <= j < i :: ActualName(impls[j])
  {
    if ActualName(impls[i]) in set j | 0 <= j < i :: ActualName(impls[j]) {
      var j :| 0 <= j < i && ActualName(impls[j]) == ActualName(impls[i]);
      assert DuplicateBefore(impls, i + 1);
    }
  }

  /** Implementation `i` adds an escape character only with a name not seen
      before: a seen name's characters were counted with it. */
  lemma EscapeStep(impls: seq<Implementation>, i: nat)
    requires i < |impls|
    ensures var name := ActualName(impls[i]);
      EscapeBefore(impls, i + 1) <==>
      EscapeBefore(impls, i) || (name !in (set j | 0 <= j < i :: ActualName(impls[j])) && HasEscapeChars(name))
  {
    var name := ActualName(impls[i]);
    if HasEscapeChars(name) && name in set j | 0 <= j < i :: ActualName(impls[j]) {
      var j :| 0 <= j < i && ActualName(impls[j]) == name;
      assert HasEscapeChars(ActualName(impls[j]));
    }
  }

  // ---------------------------------------------------------------------
  // Array format indexes

  /** What makes indexes unusable in array format: an attribute without an
      index when there are several attributes and the instance is created
      empty, or two attributes with the same index. */
  predicate IndexError(attrs: seq<StructInfo.Attribute>, createFromEmptyInstance: bool) {
    (createFromEmptyInstance && |attrs| > 1 && exists i | 0 <= i < |attrs| :: attrs[i].index == -1) ||
    (exists i, j | 0 <= i < j < |attrs| :: attrs[i].index != -1 && attrs[i].index == attrs[j].index)
  }

  /** The array-format block of the analysis: a missing index is an error
      under the condition above, and otherwise each index goes into a set
      that must not hold it already. */
  method CheckArrayIndexes(attrs: seq<StructInfo.Attribute>, createFromEmptyInstance: bool) returns (hasError: bool)
    ensures hasError <==> IndexError(attrs, createFromEmptyInstance)
  {
    hasError := false;
    var ids: set<int> := {};
    var i := 0;
    while i < |attrs|
      invariant 0 <= i <= |attrs|
      invariant ids == set j | 0 <= j < i && attrs[j].index != -1 :: attrs[j].index
      invariant hasError <==> IndexErrorBefore(attrs, i, createFromEmptyInstance)
    {
      var attr := attrs[i];
      if attr.index == -1 && createFromEmptyInstance && |attrs| > 1 {
        hasError := true;
      } else if attr.index != -1 {
        if attr.index in ids {
          hasError := true;
        }
        ids := ids + {attr.index};
      }
      i := i + 1;
    }
  }

  /** `IndexError` as far as attribute `i`, with the attribute count of the
      whole class. */
  predicate IndexErrorBefore(attrs: seq<StructInfo.Attribute>, i: nat, createFromEmptyInstance: bool)
    requires i <= |attrs|
  {
    (createFromEmptyInstance && |attrs| > 1 && exists j | 0 <= j < i :: attrs[j].index == -1) ||
    (exists j, k | 0 <= j < k < i :: attrs[j].index != -1 && attrs[j].index == attrs[k].index)
  }
}

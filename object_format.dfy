/** The runtime object decoder (`ObjectFormatDescription`), at the level of
    the members of a JSON object. A member is its name, as the raw bytes
    between its quotes, and its value as the property readers see it. The
    decoder binds each member to a property decoder: first on a fast path
    that expects the properties in their declared order, matched by a weak
    hash and then byte by byte, and after the first surprise on a slow path
    that looks each name up by its full FNV-1a hash (confirmed byte by byte
    where two decoders share a hash). A bit mask tracks the mandatory
    properties not yet seen; a `nonNull` property refuses `null`; an unknown
    name is an error unless unknown properties are skipped.

    The bound instance is an array with one slot per decoder, holding the
    last value bound to it; the functions specify each step, and the
    methods, which loop as the source does, are proved to agree with them. */
module ObjectFormat {
  import opened Java
  import Fnv

  /** A property decoder (`DecodePropertyInfo`): the name's bytes, its full
      and weak hash, whether a full-hash match must be confirmed byte by
      byte, whether `null` is refused, and the mask AND-ed into the
      mandatory state when the property is bound. */
  datatype Decoder = Decoder(
    name: seq<Byte>,
    hash: bv32,
    weakHash: int,
    exactName: bool,
    nonNull: bool,
    mandatoryValue: bv64)

  /** What an `ObjectFormatDescription` knows when it decodes: its decoders
      in declared order, the unknown-property policy, and the initial
      mandatory mask (`hasMandatory` is `mandatoryFlag != 0`). */
  datatype Description = Description(decoders: seq<Decoder>, skipOnUnknown: bool, mandatoryFlag: bv64)
  {
    predicate HasMandatory() { mandatoryFlag != 0 }
  }

  /** A member's value as the property readers see it: the `null` literal, a
      value the property's reader accepts, or input that neither the reader
      nor `skip()` accepts, with the message of that failure. */
  datatype Value = Null | Good(v: int) | Bad(message: string)

  /** A member: its name's bytes, the full and the weak hash the reader
      computed over them (`getLastHash()`, `fillNameWeakHash()`), and its
      value. */
  datatype Member = Member(name: seq<Byte>, hash: bv32, weakHash: int, value: Value)

  /** The hashes of every member are those of its name. */
  predicate Hashed(b: Body) {
    forall k | 0 <= k < |b.members| ::
      b.members[k].hash == Fnv.Hash(b.members[k].name) && b.members[k].weakHash == Fnv.WeakHash(b.members[k].name)
  }

  /** The object after its `{`: the members, separated by commas, and the
      token after the last value (for an object without members, the token
      after `{`). The object is closed when that token is `}`; a `,` there
      is a comma that no name follows. */
  datatype Body = Body(members: seq<Member>, end: Byte)

  /** The exceptions of the decoder. The messages of the source also name
      the type and the input position; those are left out. */
  datatype Failure =
    | NotObject(found: Byte)              // "Expecting '{'"
    | NameExpected                        // a name must follow: "Expecting '\"' for attribute name"
    | NullForProperty(name: seq<Byte>)    // "Null value found for property"
    | UnknownProperty(name: seq<Byte>)    // "Unknown property detected"
    | BadValue(message: string)           // the property reader or `skip()` failed
    | NotClosed(found: Byte)              // "Expecting '}' or ','"
    | MandatoryMissing(mask: bv64)        // `showMandatoryError` with the bits left

  /** The bound instance: for each decoder, the last value bound to it. */
  type Instance = seq<Option<Value>>

  /** A fresh instance (`newInstance.create()`): nothing bound. */
  function Fresh(n: nat): (inst: Instance)
    ensures |inst| == n && forall j | 0 <= j < n :: inst[j] == None
  {
    seq(n, _ => None)
  }

  /** Where decoding stopped: the instance as bound so far, and the
      exception, if any. */
  datatype Outcome = Outcome(inst: Instance, failure: Option<Failure>)

  /** The result of one member: go on with this instance and mask, or stop. */
  datatype Step = Continue(inst: Instance, mask: bv64) | Fail(failure: Failure)

  // ---------------------------------------------------------------------
  // The slow path

  /** The slow path's test of one decoder: the full hash is the name's and,
      when the decoder asks for it, so are the bytes. */
  predicate Matches(ri: Decoder, m: Member) {
    ri.hash == m.hash && (ri.exactName ==> ri.name == m.name)
  }

  /** The slow path's lookup from `from` on: the first decoder that matches,
      or `|ds|` when none does. */
  function Find(ds: seq<Decoder>, m: Member, from: nat): (j: nat)
    requires from <= |ds|
    ensures from <= j <= |ds|
    ensures j < |ds| ==> Matches(ds[j], m)
    ensures forall k | from <= k < j :: !Matches(ds[k], m)
    decreases |ds| - from
  {
    if from == |ds| then |ds|
    else if Matches(ds[from], m) then from
    else Find(ds, m, from + 1)
  }

  /** Binding a member's value with decoder `j`: `null` for a `nonNull`
      property and a value the reader refuses stop; otherwise the value is
      stored and the decoder's mask is AND-ed in. */
  function BindValue(ri: Decoder, j: nat, m: Member, inst: Instance, mask: bv64): (r: Step)
    requires j < |inst|
    ensures r.Continue? ==> |r.inst| == |inst|
  {
    if ri.nonNull && m.value == Null then Fail(NullForProperty(ri.name))
    else if m.value.Bad? then Fail(BadValue(m.value.message))
    else Continue(inst[j := Some(m.value)], mask & ri.mandatoryValue)
  }

  /** `skip(reader)` on a member no decoder takes: an error unless unknown
      properties are skipped; then the value is skipped. */
  function SkipValue(d: Description, m: Member, inst: Instance, mask: bv64): (r: Step)
    ensures r.Continue? ==> r == Continue(inst, mask)
  {
    if !d.skipOnUnknown then Fail(UnknownProperty(m.name))
    else if m.value.Bad? then Fail(BadValue(m.value.message))
    else Continue(inst, mask)
  }

  /** One member on the slow path: the first matching decoder binds it, or
      it is skipped. */
  function SlowMember(d: Description, m: Member, inst: Instance, mask: bv64): (r: Step)
    requires |inst| == |d.decoders|
    ensures r.Continue? ==> |r.inst| == |inst|
  {
    var j := Find(d.decoders, m, 0);
    if j < |d.decoders| then BindValue(d.decoders[j], j, m, inst, mask)
    else SkipValue(d, m, inst, mask)
  }

  /** The last part of `finalChecks`, on the token after the last value: a
      `}` closes the object, and then an error reports the mandatory bits
      left; a `,` must be followed by a name; anything else is an error. */
  function Close(d: Description, end: Byte, inst: Instance, mask: bv64): (r: Outcome)
    ensures r.inst == inst
  {
    if end == OBJECT_END then
      if d.HasMandatory() && mask != 0 then Outcome(inst, Some(MandatoryMissing(mask)))
      else Outcome(inst, None)
    else if end == COMMA then Outcome(inst, Some(NameExpected))
    else Outcome(inst, Some(NotClosed(end)))
  }

  /** `bindObjectSlow` from member `k` on, then `finalChecks`. */
  function SlowFrom(d: Description, b: Body, k: nat, inst: Instance, mask: bv64): (r: Outcome)
    requires k <= |b.members| && |inst| == |d.decoders|
    ensures |r.inst| == |inst|
    decreases |b.members| - k
  {
    if k == |b.members| then Close(d, b.end, inst, mask)
    else
      match SlowMember(d, b.members[k], inst, mask)
      case Fail(f) => Outcome(inst, Some(f))
      case Continue(next, m) => SlowFrom(d, b, k + 1, next, m)
  }

  /** Decoding by the slow path alone: the reference the fast path is
      measured against. */
  function SlowAll(d: Description, b: Body, inst: Instance): (r: Outcome)
    requires |inst| == |d.decoders|
    ensures |r.inst| == |inst|
  {
    if |b.members| == 0 && b.end != OBJECT_END then Outcome(inst, Some(NameExpected))
    else SlowFrom(d, b, 0, inst, d.mandatoryFlag)
  }

  // ---------------------------------------------------------------------
  // The fast path

  /** The fast path's test of decoder `ri` against the next name: the weak
      hash first, then the bytes. */
  predicate FastMatch(ri: Decoder, m: Member) {
    m.weakHash == ri.weakHash && m.name == ri.name
  }

  /** The loop of `bindContent` at decoder `i`, which expects member `i`:
      without a name there, an error; on a mismatch, the slow path takes
      over from that member with what is bound so far; otherwise the member
      is bound, and the loop goes on after a comma while decoders remain,
      or hands over to `finalChecks`. */
  function FastFrom(d: Description, b: Body, i: nat, inst: Instance, mask: bv64): (r: Outcome)
    requires i < |d.decoders| && i <= |b.members| && |inst| == |d.decoders|
    ensures |r.inst| == |inst|
    decreases |d.decoders| - i
  {
    if i == |b.members| then Outcome(inst, Some(NameExpected))
    else
      var ri, m := d.decoders[i], b.members[i];
      if !FastMatch(ri, m) then SlowFrom(d, b, i, inst, mask)
      else
        match BindValue(ri, i, m, inst, mask)
        case Fail(f) => Outcome(inst, Some(f))
        case Continue(next, bits) =>
          if i + 1 < |b.members| && i + 1 < |d.decoders| then FastFrom(d, b, i + 1, next, bits)
          else FinalChecks(d, b, i + 1, next, bits)
  }

  /** `finalChecks` with member `k` next: when there is one, the token was a
      comma and the slow path reads the rest; otherwise the object must
      close. */
  function FinalChecks(d: Description, b: Body, k: nat, inst: Instance, mask: bv64): (r: Outcome)
    requires k <= |b.members| && |inst| == |d.decoders|
    ensures |r.inst| == |inst|
  {
    if k < |b.members| then SlowFrom(d, b, k, inst, mask) else Close(d, b.end, inst, mask)
  }

  /** `bindContent` as written. `{}` reports the mandatory properties, if
      any. With no decoders at all the loop does not run and `finalChecks`
      sees the first token: the opening quote of a member is "Expecting '}'
      or ','", whatever the unknown-property policy says. */
  function BindContentAsWritten(d: Description, b: Body, inst: Instance): (r: Outcome)
    requires |inst| == |d.decoders|
    ensures |r.inst| == |inst|
    ensures 0 < |d.decoders| ==> r == BindContent(d, b, inst)
  {
    if |b.members| == 0 && b.end == OBJECT_END then Close(d, OBJECT_END, inst, d.mandatoryFlag)
    else if |d.decoders| == 0 then
      if 0 < |b.members| then Outcome(inst, Some(NotClosed(QUOTE)))
      else Close(d, b.end, inst, d.mandatoryFlag)
    else FastFrom(d, b, 0, inst, d.mandatoryFlag)
  }

  /** `bindContent` corrected: the members of an object without decoders
      are handed to the slow path, where they are skipped or reported as
      unknown. */
  function BindContent(d: Description, b: Body, inst: Instance): (r: Outcome)
    requires |inst| == |d.decoders|
    ensures |r.inst| == |inst|
    ensures |d.decoders| == 0 ==> r == SlowAll(d, b, inst)
  {
    if |b.members| == 0 && b.end == OBJECT_END then Close(d, OBJECT_END, inst, d.mandatoryFlag)
    else if |d.decoders| == 0 then SlowAll(d, b, inst)
    else FastFrom(d, b, 0, inst, d.mandatoryFlag)
  }

  /** What `read` gives: `null` for the `null` literal, or an error, or the
      instance decoded from a fresh one (`finalize` is the identity, as in
      `create`). */
  datatype ReadResult = NullLiteral | Failed(failure: Failure) | Decoded(inst: Instance)

  /** `read` as written: `bindContent` as written on a fresh instance. */
  function ReadSpec(d: Description, wasNull: bool, last: Byte, b: Body): (r: ReadResult)
    ensures r.Decoded? ==> |r.inst| == |d.decoders|
  {
    if wasNull then NullLiteral
    else if last != OBJECT_START then Failed(NotObject(last))
    else
      var o := BindContentAsWritten(d, b, Fresh(|d.decoders|));
      if o.failure.Some? then Failed(o.failure.value) else Decoded(o.inst)
  }

  // ---------------------------------------------------------------------
  // The methods

  /** The decoder loop of `bindObjectSlow` for one name, with its full hash
      as `getLastHash()`/`fillName()` return it. */
  method FindDecoder(ds: seq<Decoder>, m: Member) returns (j: nat)
    ensures j == Find(ds, m, 0)
  {
    j := 0;
    while j < |ds|
      invariant j <= |ds| && Find(ds, m, 0) == Find(ds, m, j)
    {
      var ri := ds[j];
      if m.hash == ri.hash && (!ri.exactName || ri.name == m.name) {
        return;
      }
      j := j + 1;
    }
  }

  /** One member on the slow path: find its decoder and bind the value, or
      skip it (`skip(reader)`). */
  method BindMember(d: Description, m: Member, inst: array<Option<Value>>, mask: bv64)
    returns (bits: bv64, failure: Option<Failure>)
    requires inst.Length == |d.decoders|
    modifies inst
    ensures var st := SlowMember(d, m, old(inst[..]), mask);
      if st.Continue? then failure == None && inst[..] == st.inst && bits == st.mask
      else failure == Some(st.failure) && inst[..] == old(inst[..])
  {
    var j := FindDecoder(d.decoders, m);
    if j < |d.decoders| {
      bits, failure := BindValueAt(d.decoders[j], j, m, inst, mask);
    } else if !d.skipOnUnknown {
      bits, failure := mask, Some(UnknownProperty(m.name));
    } else if m.value.Bad? {
      bits, failure := mask, Some(BadValue(m.value.message));
    } else {
      bits, failure := mask, None;
    }
  }

  /** The binding of one value with decoder `j` (`ri.read(reader, instance)`
      and the mask update). */
  method BindValueAt(ri: Decoder, j: nat, m: Member, inst: array<Option<Value>>, mask: bv64)
    returns (bits: bv64, failure: Option<Failure>)
    requires j < inst.Length
    modifies inst
    ensures var st := BindValue(ri, j, m, old(inst[..]), mask);
      if st.Continue? then failure == None && inst[..] == st.inst && bits == st.mask
      else failure == Some(st.failure) && inst[..] == old(inst[..])
  {
    if ri.nonNull && m.value == Null {
      return mask, Some(NullForProperty(ri.name));
    }
    if m.value.Bad? {
      return mask, Some(BadValue(m.value.message));
    }
    inst[j] := Some(m.value);
    bits := mask & ri.mandatoryValue;
    failure := None;
  }

  /** `bindObjectSlow` from member `k`: bind or skip each member while a
      comma follows, then `finalChecks`. */
  method BindObjectSlow(d: Description, b: Body, k: nat, inst: array<Option<Value>>, mask: bv64)
    returns (failure: Option<Failure>)
    requires k < |b.members| && inst.Length == |d.decoders|
    modifies inst
    ensures Outcome(inst[..], failure) == SlowFrom(d, b, k, old(inst[..]), mask)
    decreases |b.members| - k, 0
  {
    var n, bits := k, mask;
    while n < |b.members|
      invariant k <= n <= |b.members|
      invariant SlowFrom(d, b, k, old(inst[..]), mask) == SlowFrom(d, b, n, inst[..], bits)
    {
      var f;
      bits, f := BindMember(d, b.members[n], inst, bits);
      if f.Some? {
        return f;
      }
      n := n + 1;
    }
    failure := FinalCheck(d, b, n, inst, bits);
  }

  /** `finalChecks` with member `k` next (a comma came before it), or at the
      end of the members. */
  method FinalCheck(d: Description, b: Body, k: nat, inst: array<Option<Value>>, mask: bv64)
    returns (failure: Option<Failure>)
    requires k <= |b.members| && inst.Length == |d.decoders|
    modifies inst
    ensures Outcome(inst[..], failure) == FinalChecks(d, b, k, old(inst[..]), mask)
    decreases |b.members| - k, 1
  {
    if k < |b.members| {
      failure := BindObjectSlow(d, b, k, inst, mask);
    } else if b.end != OBJECT_END {
      failure := if b.end == COMMA then Some(NameExpected) else Some(NotClosed(b.end));
    } else if d.HasMandatory() && mask != 0 {
      failure := Some(MandatoryMissing(mask));
    } else {
      failure := None;
    }
  }

  /** `bindContent`: the fast loop over the decoders in declared order;
      without decoders the loop does not run and `finalChecks` sees the
      first token. */
  method BindContentLoop(d: Description, b: Body, inst: array<Option<Value>>)
    returns (failure: Option<Failure>)
    requires inst.Length == |d.decoders|
    modifies inst
    ensures Outcome(inst[..], failure) == BindContentAsWritten(d, b, old(inst[..]))
  {
    if |b.members| == 0 && b.end == OBJECT_END {
      return if d.HasMandatory() then Some(MandatoryMissing(d.mandatoryFlag)) else None;
    }
    if |d.decoders| == 0 {
      if 0 < |b.members| {
        return Some(NotClosed(QUOTE));
      }
      failure := FinalCheck(d, b, 0, inst, d.mandatoryFlag);
      return;
    }
    var bits := d.mandatoryFlag;
    var i := 0;
    while true
      invariant i < |d.decoders| && i <= |b.members|
      invariant BindContentAsWritten(d, b, old(inst[..])) == FastFrom(d, b, i, inst[..], bits)
      decreases |d.decoders| - i
    {
      var ri := d.decoders[i];
      if i == |b.members| {
        return Some(NameExpected);
      }
      var m := b.members[i];
      if m.weakHash != ri.weakHash || m.name != ri.name {
        failure := BindObjectSlow(d, b, i, inst, bits);
        return;
      }
      var f;
      bits, f := BindValueAt(ri, i, m, inst, bits);
      if f.Some? {
        return f;
      }
      if i + 1 < |b.members| && i + 1 < |d.decoders| {
        i := i + 1;
      } else {
        failure := FinalCheck(d, b, i + 1, inst, bits);
        return;
      }
    }
  }

  /** `bind(reader, instance)`: the object must start with `{`. */
  method Bind(d: Description, last: Byte, b: Body, inst: array<Option<Value>>)
    returns (failure: Option<Failure>)
    requires inst.Length == |d.decoders|
    modifies inst
    ensures last != OBJECT_START ==> failure == Some(NotObject(last)) && inst[..] == old(inst[..])
    ensures last == OBJECT_START ==> Outcome(inst[..], failure) == BindContentAsWritten(d, b, old(inst[..]))
  {
    if last != OBJECT_START {
      return Some(NotObject(last));
    }
    failure := BindContentLoop(d, b, inst);
  }

  /** `read(reader)`: `null` for the `null` literal; otherwise a fresh
      instance (`readContent`) bound from the object that `{` opens. */
  method Read(d: Description, wasNull: bool, last: Byte, b: Body) returns (r: ReadResult)
    ensures r == ReadSpec(d, wasNull, last, b)
  {
    if wasNull {
      return NullLiteral;
    }
    if last != OBJECT_START {
      return Failed(NotObject(last));
    }
    var inst := new Option<Value>[|d.decoders|](_ => None);
    assert inst[..] == Fresh(|d.decoders|);
    var failure := BindContentLoop(d, b, inst);
    r := if failure.Some? then Failed(failure.value) else Decoded(inst[..]);
  }
}

/** What the object decoder promises, for a description whose decoders are
    prepared as the runtime prepares them: the fast path decides exactly as
    the slow path does; an object is accepted exactly when every member is,
    the object is closed and every mandatory property was seen (as written,
    only when there is a property decoder or no member); and each property
    holds the value of the last member bound to it. */
module ObjectFormatProperties {
  import opened Java
  import Fnv
  import opened ObjectFormat

  /** The decoders as prepared: each carries the hash of its name, no two
      share a name, and a decoder whose hash another one shares confirms
      its matches byte by byte. */
  predicate Prepared(ds: seq<Decoder>) {
    (forall i | 0 <= i < |ds| :: ds[i].hash == Fnv.Hash(ds[i].name)) &&
    (forall i, j | 0 <= i < j < |ds| :: ds[i].name != ds[j].name) &&
    (forall i, j | 0 <= i < |ds| && 0 <= j < |ds| && i != j && ds[i].hash == ds[j].hash :: ds[i].exactName)
  }

  /** The slow path finds a prepared decoder under its own name. */
  lemma FindPrepared(ds: seq<Decoder>, m: Member, i: nat)
    requires Prepared(ds) && i < |ds|
    requires m.name == ds[i].name && m.hash == Fnv.Hash(m.name)
    ensures Find(ds, m, 0) == i
  {
  }

  /** From any decoder on, the fast path decides and binds exactly as the
      slow path does from the same member. */
  lemma {:induction false} FastIsSlow(d: Description, b: Body, i: nat, inst: Instance, mask: bv64)
    requires Prepared(d.decoders) && Hashed(b)
    requires i < |d.decoders| && i < |b.members| && |inst| == |d.decoders|
    ensures FastFrom(d, b, i, inst, mask) == SlowFrom(d, b, i, inst, mask)
    decreases |d.decoders| - i
  {
    var ri, m := d.decoders[i], b.members[i];
    if FastMatch(ri, m) {
      FindPrepared(d.decoders, m, i);
      assert SlowMember(d, m, inst, mask) == BindValue(ri, i, m, inst, mask);
      match BindValue(ri, i, m, inst, mask)
      case Fail(f) =>
      case Continue(next, bits) =>
        if i + 1 < |b.members| && i + 1 < |d.decoders| {
          FastIsSlow(d, b, i + 1, next, bits);
        }
    }
  }

  /** The corrected `bindContent` is the slow path over the whole object;
      as written it is too whenever there is a decoder, and without
      decoders it refuses every member on its opening quote. */
  lemma BindContentIsSlow(d: Description, b: Body, inst: Instance)
    requires Prepared(d.decoders) && Hashed(b) && |inst| == |d.decoders|
    ensures BindContent(d, b, inst) == SlowAll(d, b, inst)
    ensures 0 < |d.decoders| ==> BindContentAsWritten(d, b, inst) == SlowAll(d, b, inst)
    ensures |d.decoders| == 0 && 0 < |b.members| ==> BindContentAsWritten(d, b, inst) == Outcome(inst, Some(NotClosed(QUOTE)))
  {
    if !(|b.members| == 0 && b.end == OBJECT_END) && 0 < |d.decoders| && 0 < |b.members| {
      FastIsSlow(d, b, 0, inst, d.mandatoryFlag);
    }
  }

  // ---------------------------------------------------------------------
  // A reference verdict

  /** A member the decoder takes: its decoder accepts the value, or, with
      no decoder for it, unknown properties are skipped and the value can
      be skipped. */
  predicate Accepted(d: Description, m: Member) {
    var j := Find(d.decoders, m, 0);
    if j < |d.decoders| then !(d.decoders[j].nonNull && m.value == Null) && !m.value.Bad?
    else d.skipOnUnknown && !m.value.Bad?
  }

  /** All members from `k` on are accepted. */
  predicate AllAccepted(d: Description, ms: seq<Member>, k: nat) {
    forall n | k <= n < |ms| :: Accepted(d, ms[n])
  }

  /** The mandatory mask after a member: its decoder's mask AND-ed in, or
      unchanged for a skipped member. */
  function NextMask(d: Description, m: Member, mask: bv64): bv64 {
    var j := Find(d.decoders, m, 0);
    if j < |d.decoders| then mask & d.decoders[j].mandatoryValue else mask
  }

  /** The instance after storing a member in its decoder's slot, if any. */
  function Put(d: Description, inst: Instance, m: Member): (r: Instance)
    requires |inst| == |d.decoders|
    ensures |r| == |inst|
  {
    var j := Find(d.decoders, m, 0);
    if j < |d.decoders| then inst[j := Some(m.value)] else inst
  }

  /** The mandatory mask after members `k..`, from `mask`. */
  function MaskFrom(d: Description, ms: seq<Member>, k: nat, mask: bv64): bv64
    requires k <= |ms|
    decreases |ms| - k
  {
    if k == |ms| then mask else MaskFrom(d, ms, k + 1, NextMask(d, ms[k], mask))
  }

  /** The instance after storing members `k..` in order. */
  function StoredFrom(d: Description, ms: seq<Member>, k: nat, inst: Instance): (r: Instance)
    requires k <= |ms| && |inst| == |d.decoders|
    ensures |r| == |inst|
    decreases |ms| - k
  {
    if k == |ms| then inst else StoredFrom(d, ms, k + 1, Put(d, inst, ms[k]))
  }

  /** A slot that none of the members `k..` finds keeps what it held. */
  lemma {:induction false} StoredUntouched(d: Description, ms: seq<Member>, k: nat, inst: Instance, j: nat)
    requires k <= |ms| && |inst| == |d.decoders| && j < |d.decoders|
    requires forall i | k <= i < |ms| :: Find(d.decoders, ms[i], 0) != j
    ensures StoredFrom(d, ms, k, inst)[j] == inst[j]
    decreases |ms| - k
  {
    if k < |ms| {
      StoredUntouched(d, ms, k + 1, Put(d, inst, ms[k]), j);
    }
  }

  /** The last member that finds slot `j` decides what it holds: storing
      members `k..` leaves its value there, whatever earlier members put. */
  lemma {:induction false} StoredLastWins(d: Description, ms: seq<Member>, k: nat, inst: Instance, j: nat, n: nat)
    requires k <= n < |ms| && |inst| == |d.decoders| && j < |d.decoders|
    requires Find(d.decoders, ms[n], 0) == j
    requires forall i | n < i < |ms| :: Find(d.decoders, ms[i], 0) != j
    ensures StoredFrom(d, ms, k, inst)[j] == Some(ms[n].value)
    decreases |ms| - k
  {
    if k < n {
      StoredLastWins(d, ms, k + 1, Put(d, inst, ms[k]), j, n);
    } else {
      StoredUntouched(d, ms, n + 1, Put(d, inst, ms[n]), j);
    }
  }

  /** One member of the slow path: an accepted member is stored and its
      mask AND-ed in; any other stops decoding with an exception. */
  lemma SlowStep(d: Description, b: Body, k: nat, inst: Instance, mask: bv64)
    requires k < |b.members| && |inst| == |d.decoders|
    ensures Accepted(d, b.members[k]) ==>
      SlowFrom(d, b, k, inst, mask) == SlowFrom(d, b, k + 1, Put(d, inst, b.members[k]), NextMask(d, b.members[k], mask))
    ensures !Accepted(d, b.members[k]) ==> SlowFrom(d, b, k, inst, mask).failure.Some?
  {
    var m := b.members[k];
    if Accepted(d, m) {
      assert SlowMember(d, m, inst, mask) == Continue(Put(d, inst, m), NextMask(d, m, mask));
    } else {
      assert SlowMember(d, m, inst, mask).Fail?;
    }
  }

  /** The slow path from member `k` succeeds exactly when those members are
      all accepted, the object is closed, and the mandatory bits left after
      them are clear; it then stores them in order. */
  lemma {:induction false} SlowFromVerdict(d: Description, b: Body, k: nat, inst: Instance, mask: bv64)
    requires k <= |b.members| && |inst| == |d.decoders|
    ensures var r := SlowFrom(d, b, k, inst, mask);
      r.failure == None <==>
        AllAccepted(d, b.members, k) && b.end == OBJECT_END &&
        !(d.HasMandatory() && MaskFrom(d, b.members, k, mask) != 0)
    ensures var r := SlowFrom(d, b, k, inst, mask);
      r.failure == None ==> r.inst == StoredFrom(d, b.members, k, inst)
    decreases |b.members| - k
  {
    if k < |b.members| {
      var m := b.members[k];
      SlowStep(d, b, k, inst, mask);
      if Accepted(d, m) {
        SlowFromVerdict(d, b, k + 1, Put(d, inst, m), NextMask(d, m, mask));
      }
    }
  }

  /** `read` on a prepared description, as written: the object is decoded
      exactly when it has a decoder or no members, its members are all
      accepted, it is closed and no mandatory property is missing; each
      property then holds what storing the members in order leaves there. */
  lemma ReadVerdict(d: Description, last: Byte, b: Body)
    requires Prepared(d.decoders) && Hashed(b) && last == OBJECT_START
    ensures ReadSpec(d, false, last, b).Decoded? <==>
      (0 < |d.decoders| || |b.members| == 0) &&
      AllAccepted(d, b.members, 0) && b.end == OBJECT_END &&
      !(d.HasMandatory() && MaskFrom(d, b.members, 0, d.mandatoryFlag) != 0)
    ensures ReadSpec(d, false, last, b).Decoded? ==>
      ReadSpec(d, false, last, b).inst == StoredFrom(d, b.members, 0, Fresh(|d.decoders|))
  {
    var inst := Fresh(|d.decoders|);
    BindContentIsSlow(d, b, inst);
    SlowFromVerdict(d, b, 0, inst, d.mandatoryFlag);
  }

  /** In an object `read` decodes, a property holds the value of the last
      member bound to it, and a property no member names stays unbound. */
  lemma ReadLastWins(d: Description, last: Byte, b: Body, j: nat)
    requires Prepared(d.decoders) && Hashed(b) && last == OBJECT_START && j < |d.decoders|
    ensures ReadSpec(d, false, last, b).Decoded? ==>
      ((forall i | 0 <= i < |b.members| :: Find(d.decoders, b.members[i], 0) != j) ==>
         ReadSpec(d, false, last, b).inst[j] == None)
    ensures forall n | 0 <= n < |b.members| && Find(d.decoders, b.members[n], 0) == j &&
        (forall i | n < i < |b.members| :: Find(d.decoders, b.members[i], 0) != j) ::
      ReadSpec(d, false, last, b).Decoded? ==> ReadSpec(d, false, last, b).inst[j] == Some(b.members[n].value)
  {
    ReadVerdict(d, last, b);
    var start := Fresh(|d.decoders|);
    if forall i | 0 <= i < |b.members| :: Find(d.decoders, b.members[i], 0) != j {
      StoredUntouched(d, b.members, 0, start, j);
    }
    forall n | 0 <= n < |b.members| && Find(d.decoders, b.members[n], 0) == j &&
        (forall i | n < i < |b.members| :: Find(d.decoders, b.members[i], 0) != j)
      ensures StoredFrom(d, b.members, 0, start)[j] == Some(b.members[n].value)
    {
      StoredLastWins(d, b.members, 0, start, j, n);
    }
  }

  /** The corrected `bindContent` on a fresh instance: the same verdict
      for every description, with or without decoders. */
  lemma CorrectedVerdict(d: Description, b: Body)
    requires Prepared(d.decoders) && Hashed(b)
    ensures BindContent(d, b, Fresh(|d.decoders|)).failure == None <==>
      AllAccepted(d, b.members, 0) && b.end == OBJECT_END &&
      !(d.HasMandatory() && MaskFrom(d, b.members, 0, d.mandatoryFlag) != 0)
    ensures BindContent(d, b, Fresh(|d.decoders|)).failure == None ==>
      BindContent(d, b, Fresh(|d.decoders|)).inst == StoredFrom(d, b.members, 0, Fresh(|d.decoders|))
  {
    var inst := Fresh(|d.decoders|);
    BindContentIsSlow(d, b, inst);
    SlowFromVerdict(d, b, 0, inst, d.mandatoryFlag);
  }

  // ---------------------------------------------------------------------
  // The description without decoders

  /** A description without properties that skips unknown ones refuses
      `{"a":1}` as written, with "Expecting '}' or ','" on the name's
      opening quote, while the slow path, which it hands over to once
      corrected, skips the member and accepts the object. */
  lemma NoDecodersRefuseMembers()
    ensures var d, name := Description([], true, 0), [97 as Byte];
      var b := Body([Member(name, Fnv.Hash(name), Fnv.WeakHash(name), Good(1))], OBJECT_END);
      BindContentAsWritten(d, b, []) == Outcome([], Some(NotClosed(QUOTE))) &&
      BindContent(d, b, []) == Outcome([], None)
  {
    var d, name := Description([], true, 0), [97 as Byte];
    var b := Body([Member(name, Fnv.Hash(name), Fnv.WeakHash(name), Good(1))], OBJECT_END);
    assert Find(d.decoders, b.members[0], 0) == 0;
    assert SlowFrom(d, b, 1, [], 0) == Outcome([], None);
  }
}

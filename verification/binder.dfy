/** `Processor.Parse` and `Processor.Set`: the groups the tokenizer
    collected are written into the configuration object through every
    matching descriptor, conversion failures are recorded, and each
    required descriptor left unset adds an error. The configuration object
    is a sequence of member values indexed by descriptor slot. */
module Binder {
  import opened Base
  import opened Text
  import opened Settings
  import opened Types
  import opened Errors
  import opened Coercion
  import opened Setter
  import opened Descriptors
  import opened Tokenizer
  import opened Builder

  const TrueText := "true"
  const NoMatchReason := "No matching parameter in application settings class"
  const RequiredReason := "Required argument not set"

  // ---------------------------------------------------------------------
  // Shape of the configuration object

  /** Every descriptor's slot exists and holds a value its setter accepts. */
  predicate Fits(descs: seq<Descriptor>, inst: seq<Value>) {
    forall i :: 0 <= i < |descs| ==> descs[i].slot < |inst| && ListSlotOk(descs[i].memberType, inst[descs[i].slot])
  }

  /** Descriptors that write the same slot describe the same member, so
      they agree on its type. */
  predicate SlotsTyped(descs: seq<Descriptor>) {
    forall i, j :: 0 <= i < |descs| && 0 <= j < |descs| && descs[i].slot == descs[j].slot ==>
      descs[i].memberType == descs[j].memberType
  }

  /** `b` differs from `a` at most in `required` flags. */
  predicate SameShape(a: seq<Descriptor>, b: seq<Descriptor>) {
    |a| == |b| && forall j :: 0 <= j < |a| ==> a[j].(required := false) == b[j].(required := false)
  }

  lemma SameShapeKeeps(a: seq<Descriptor>, b: seq<Descriptor>, inst: seq<Value>)
    requires SameShape(a, b) && Fits(a, inst) && SlotsTyped(a)
    ensures Fits(b, inst) && SlotsTyped(b)
  {
    assert forall j :: 0 <= j < |a| ==> a[j].slot == b[j].slot && a[j].memberType == b[j].memberType by {
      forall j | 0 <= j < |a| ensures a[j].slot == b[j].slot && a[j].memberType == b[j].memberType {
        assert a[j].(required := false).slot == a[j].slot;
        assert b[j].(required := false).slot == b[j].slot;
      }
    }
  }

  lemma SameShapeTrans(a: seq<Descriptor>, b: seq<Descriptor>, c: seq<Descriptor>)
    requires SameShape(a, b) && SameShape(b, c)
    ensures SameShape(a, c)
  {
  }

  // ---------------------------------------------------------------------
  // Processor.Set

  /** The value handed to a setter: an empty value for a `bool` member
      stands for "true". */
  function Bound(t: TypeTag, v: string): (r: string)
    ensures IsBool(t) && v == "" ==> r == TrueText
    ensures !(IsBool(t) && v == "") ==> r == v
  {
    if IsBool(t) && v == "" then TrueText else v
  }

  function BoundAll(t: TypeTag, values: seq<string>): (r: seq<string>)
    ensures |r| == |values| && forall i :: 0 <= i < |values| ==> r[i] == Bound(t, values[i])
  {
    if values == [] then [] else [Bound(t, values[0])] + BoundAll(t, values[1..])
  }

  /** The slots of the descriptors at or after `k` that match `key`. */
  function Writes(descs: seq<Descriptor>, key: string, c: Comparison, k: nat): (r: set<nat>)
    requires k <= |descs|
    ensures forall j :: k <= j < |descs| && Match(descs[j], key, c) ==> descs[j].slot in r
    decreases |descs| - k
  {
    if k == |descs| then {}
    else (if Match(descs[k], key, c) then {descs[k].slot} else {}) + Writes(descs, key, c, k + 1)
  }

  /** What `Set` did: completed, reporting whether any value was applied,
      or aborted by a conversion failure, keeping the writes before it. */
  datatype Applied = Applied(inst: seq<Value>, any: bool) | Aborted(inst: seq<Value>, failure: Failure)

  lemma SetEachFits(lib: Library, descs: seq<Descriptor>, k: nat, inst: seq<Value>, values: seq<string>)
    requires k < |descs| && Fits(descs, inst) && SlotsTyped(descs)
    ensures var r := SetEach(lib, descs[k].memberType, descs[k].slot, inst, values);
      Fits(descs, r.0) && |r.0| == |inst|
  {
    var d := descs[k];
    var r := SetEach(lib, d.memberType, d.slot, inst, values);
    forall i | 0 <= i < |descs| ensures descs[i].slot < |r.0| && ListSlotOk(descs[i].memberType, r.0[descs[i].slot]) {
      if descs[i].slot == d.slot {
        assert descs[i].memberType == d.memberType;
      }
    }
  }

  /** `Set(key, values)` from descriptor `k` on: every value, made
      `Bound`, is applied in order to every matching descriptor in list
      order; `any` records whether anything was applied (the source's
      `set` flag). */
  function SetMatching(lib: Library, c: Comparison, descs: seq<Descriptor>, key: string, values: seq<string>,
                       k: nat, inst: seq<Value>, any: bool): (r: Applied)
    requires k <= |descs| && Fits(descs, inst) && SlotsTyped(descs)
    ensures |r.inst| == |inst| && Fits(descs, r.inst)
    ensures forall j :: 0 <= j < |inst| && j !in Writes(descs, key, c, k) ==> r.inst[j] == inst[j]
    ensures r.Applied? ==> (r.any <==> any || (values != [] && FindFrom(descs, key, c, k).Some?))
    ensures r.Aborted? ==> values != [] && FindFrom(descs, key, c, k).Some?
    decreases |descs| - k
  {
    if k == |descs| then Applied(inst, any)
    else if !Match(descs[k], key, c) then SetMatching(lib, c, descs, key, values, k + 1, inst, any)
    else
      var d := descs[k];
      SetEachFits(lib, descs, k, inst, BoundAll(d.memberType, values));
      var (next, failure) := SetEach(lib, d.memberType, d.slot, inst, BoundAll(d.memberType, values));
      match failure
      case Some(f) =>
        Aborted(next, f)
      case None => SetMatching(lib, c, descs, key, values, k + 1, next, any || values != [])
  }

  // ---------------------------------------------------------------------
  // Processor.Parse: the loop over the groups

  /** The state the loop threads: descriptors (whose `required` flags it
      clears), the configuration object, and the error list. */
  datatype Binding = Binding(descs: seq<Descriptor>, inst: seq<Value>, errors: seq<Error>)

  predicate BindingOk(b: Binding) {
    Fits(b.descs, b.inst) && SlotsTyped(b.descs)
  }

  /** The error a conversion failure becomes: a reflective call's failure
      is wrapped with the key, the first value and the type of the first
      matching descriptor; `Enum.Parse`'s exception is recorded as is. */
  function ConversionError(key: string, first: string, t: TypeTag, f: Failure): (e: Error)
    ensures e.TypedError? <==> f.Invoked?
    ensures f.Invoked? ==> e == TypedError(Str(key), Str(first), t, Str(f.inner))
    ensures f.BadEnum? ==> e == ArgumentError(Str(f.value))
  {
    match f
    case Invoked(m) => TypedError(Str(key), Str(first), t, Str(m))
    case BadEnum(v) => ArgumentError(Str(v))
  }

  /** One iteration of the loop over the groups. */
  function BindGroup(lib: Library, c: Comparison, b: Binding, g: Group): (r: Binding)
    requires BindingOk(b)
    ensures SameShape(b.descs, r.descs) && BindingOk(r) && |r.inst| == |b.inst|
    ensures |b.errors| <= |r.errors| <= |b.errors| + 1 && r.errors[..|b.errors|] == b.errors
    ensures forall i :: 0 <= i < |b.descs| && r.descs[i] != b.descs[i] ==>
      GetDescriptor(b.descs, g.key, c) == Some(i) && !r.descs[i].required && |r.errors| == |b.errors|
    ensures GetDescriptor(b.descs, g.key, c).Some? && |r.errors| == |b.errors| ==>
      !r.descs[GetDescriptor(b.descs, g.key, c).value].required
    ensures forall j :: 0 <= j < |b.inst| && j !in Writes(b.descs, g.key, c, 0) ==> r.inst[j] == b.inst[j]
  {
    match SetMatching(lib, c, b.descs, g.key, g.values, 0, b.inst, false)
    case Aborted(inst, f) =>
      var first := GetDescriptor(b.descs, g.key, c).value;
      var e := ConversionError(g.key, g.values[0], b.descs[first].memberType, f);
      Binding(b.descs, inst, b.errors + [e])
    case Applied(inst, any) =>
      if !any && g.values == [] then
        Binding(b.descs, inst, b.errors + [ArgumentOutOfRange])
      else
        var errors := if any then b.errors
          else b.errors + [ReasonError(Str(g.key), Str(g.values[0]), NoMatchReason)];
        match GetDescriptor(b.descs, g.key, c)
        case None => Binding(b.descs, inst, errors)
        case Some(i) =>
          var descs := b.descs[i := b.descs[i].(required := false)];
          SameShapeKeeps(b.descs, descs, inst);
          Binding(descs, inst, errors)
  }

  /** The whole loop, groups in dictionary order. */
  function BindAll(lib: Library, c: Comparison, b: Binding, groups: seq<Group>): (r: Binding)
    requires BindingOk(b)
    ensures SameShape(b.descs, r.descs) && BindingOk(r) && |r.inst| == |b.inst|
    ensures |b.errors| <= |r.errors| && r.errors[..|b.errors|] == b.errors
    ensures forall i :: 0 <= i < |b.descs| && r.descs[i].required ==> b.descs[i].required
    decreases |groups|
  {
    if groups == [] then b
    else
      var b' := BindGroup(lib, c, b, groups[0]);
      var r := BindAll(lib, c, b', groups[1..]);
      SameShapeTrans(b.descs, b'.descs, r.descs);
      assert r.errors[..|b.errors|] == r.errors[..|b'.errors|][..|b.errors|];
      r
  }

  /** Binding a list of groups is binding its parts one after the other. */
  lemma {:induction false} BindAllSplit(lib: Library, c: Comparison, b: Binding, g1: seq<Group>, g2: seq<Group>)
    requires BindingOk(b)
    ensures BindAll(lib, c, b, g1 + g2) == BindAll(lib, c, BindAll(lib, c, b, g1), g2)
    decreases |g1|
  {
    if g1 != [] {
      assert (g1 + g2)[0] == g1[0] && (g1 + g2)[1..] == g1[1..] + g2;
      var b' := BindGroup(lib, c, b, g1[0]);
      BindAllCons(lib, c, b, g1);
      BindAllCons(lib, c, b, g1 + g2);
      BindAllSplit(lib, c, b', g1[1..], g2);
    } else {
      assert g1 + g2 == g2;
    }
  }

  lemma BindAllCons(lib: Library, c: Comparison, b: Binding, groups: seq<Group>)
    requires BindingOk(b) && groups != []
    ensures BindAll(lib, c, b, groups) == BindAll(lib, c, BindGroup(lib, c, b, groups[0]), groups[1..])
  {
  }

  /** With no matching descriptor left from `k` on, `Set` writes nothing. */
  lemma SetMatchingNone(lib: Library, c: Comparison, descs: seq<Descriptor>, key: string,
                        values: seq<string>, k: nat, inst: seq<Value>, any: bool)
    requires k <= |descs| && Fits(descs, inst) && SlotsTyped(descs)
    requires NoneMatch(descs, key, c, k, |descs|)
    ensures SetMatching(lib, c, descs, key, values, k, inst, any) == Applied(inst, any)
  {
    SetMatchingSkip(lib, c, descs, key, values, k, |descs|, inst, any);
  }

  /** No descriptor in `[k, i)` matches `key`. */
  predicate NoneMatch(descs: seq<Descriptor>, key: string, c: Comparison, k: nat, i: nat)
    requires k <= i <= |descs|
    decreases i - k
  {
    k == i || (!Match(descs[k], key, c) && NoneMatch(descs, key, c, k + 1, i))
  }

  /** The recursive form says the same as the quantified one. */
  lemma {:induction false} NoneMatchBefore(descs: seq<Descriptor>, key: string, c: Comparison, k: nat, i: nat)
    requires k <= i <= |descs| && forall j :: k <= j < i ==> !Match(descs[j], key, c)
    ensures NoneMatch(descs, key, c, k, i)
    decreases i - k
  {
    if k < i {
      NoneMatchBefore(descs, key, c, k + 1, i);
    }
  }

  /** Descriptors that do not match are passed over. */
  lemma SetMatchingSkip(lib: Library, c: Comparison, descs: seq<Descriptor>, key: string,
                        values: seq<string>, k: nat, i: nat, inst: seq<Value>, any: bool)
    requires k <= i <= |descs| && Fits(descs, inst) && SlotsTyped(descs)
    requires NoneMatch(descs, key, c, k, i)
    ensures SetMatching(lib, c, descs, key, values, k, inst, any) == SetMatching(lib, c, descs, key, values, i, inst, any)
    decreases i - k
  {
    var j := k;
    while j < i
      invariant k <= j <= i && NoneMatch(descs, key, c, j, i)
      invariant SetMatching(lib, c, descs, key, values, k, inst, any) == SetMatching(lib, c, descs, key, values, j, inst, any)
      decreases i - j
    {
      NoneMatchStep(descs, key, c, j, i);
      SetMatchingPass(lib, c, descs, key, values, j, inst, any);
      j := j + 1;
    }
  }

  lemma NoneMatchStep(descs: seq<Descriptor>, key: string, c: Comparison, k: nat, i: nat)
    requires k < i <= |descs| && NoneMatch(descs, key, c, k, i)
    ensures !Match(descs[k], key, c) && NoneMatch(descs, key, c, k + 1, i)
  {
  }

  lemma SetMatchingPass(lib: Library, c: Comparison, descs: seq<Descriptor>, key: string,
                        values: seq<string>, k: nat, inst: seq<Value>, any: bool)
    requires k < |descs| && Fits(descs, inst) && SlotsTyped(descs) && !Match(descs[k], key, c)
    ensures SetMatching(lib, c, descs, key, values, k, inst, any) == SetMatching(lib, c, descs, key, values, k + 1, inst, any)
  {
  }

  /** A matching descriptor whose values all convert hands on to the next
      descriptor with its writes done. */
  lemma SetMatchingHit(lib: Library, c: Comparison, descs: seq<Descriptor>, key: string,
                       values: seq<string>, k: nat, inst: seq<Value>, next: seq<Value>, any: bool)
    requires k < |descs| && Fits(descs, inst) && SlotsTyped(descs) && Match(descs[k], key, c)
    requires SetEach(lib, descs[k].memberType, descs[k].slot, inst, BoundAll(descs[k].memberType, values)) == (next, None)
    ensures Fits(descs, next)
    ensures SetMatching(lib, c, descs, key, values, k, inst, any)
         == SetMatching(lib, c, descs, key, values, k + 1, next, any || values != [])
  {
    SetEachFits(lib, descs, k, inst, BoundAll(descs[k].memberType, values));
  }

  /** No two descriptors write the same slot: each member has one
      descriptor. */
  predicate DistinctSlots(descs: seq<Descriptor>) {
    forall i, j :: 0 <= i < j < |descs| ==> descs[i].slot != descs[j].slot
  }

  /** Every value of a group, made `Bound`, converts for every descriptor
      from `k` on that matches the key. */
  predicate MatchesConvert(lib: Library, descs: seq<Descriptor>, key: string, c: Comparison, values: seq<string>, k: nat)
    requires k <= |descs|
  {
    forall j :: k <= j < |descs| && Match(descs[j], key, c) ==>
      AllCoerce(lib, CoercionTarget(descs[j].memberType), BoundAll(descs[j].memberType, values))
  }

  /** A slot no descriptor from `k` on has is not written. */
  lemma {:induction false} NotWritten(descs: seq<Descriptor>, key: string, c: Comparison, k: nat, slot: nat)
    requires k <= |descs| && forall j :: k <= j < |descs| ==> descs[j].slot != slot
    ensures slot !in Writes(descs, key, c, k)
    decreases |descs| - k
  {
    if k < |descs| {
      NotWritten(descs, key, c, k + 1, slot);
    }
  }

  /** When every value converts, `Set` completes and each matching
      descriptor's slot holds what the setter loop writes there: the last
      value for a scalar, the old elements followed by every value for a
      list. */
  lemma {:induction false} SetMatchingWrites(lib: Library, c: Comparison, descs: seq<Descriptor>, key: string,
                                             values: seq<string>, k: nat, inst: seq<Value>, any: bool)
    requires k <= |descs| && Fits(descs, inst) && SlotsTyped(descs) && DistinctSlots(descs)
    requires MatchesConvert(lib, descs, key, c, values, k)
    ensures var r := SetMatching(lib, c, descs, key, values, k, inst, any);
      && r.Applied?
      && forall j :: k <= j < |descs| && Match(descs[j], key, c) ==>
           r.inst[descs[j].slot] == Written(lib, descs[j].memberType, inst[descs[j].slot], BoundAll(descs[j].memberType, values))
    decreases |descs| - k
  {
    if k < |descs| {
      var d := descs[k];
      if !Match(d, key, c) {
        SetMatchingPass(lib, c, descs, key, values, k, inst, any);
        SetMatchingWrites(lib, c, descs, key, values, k + 1, inst, any);
      } else {
        var vs := BoundAll(d.memberType, values);
        var next := inst[d.slot := Written(lib, d.memberType, inst[d.slot], vs)];
        SetEachWritten(lib, d.memberType, d.slot, inst, vs);
        SetMatchingHit(lib, c, descs, key, values, k, inst, next, any);
        SetMatchingWrites(lib, c, descs, key, values, k + 1, next, any || values != []);
        var r := SetMatching(lib, c, descs, key, values, k + 1, next, any || values != []);
        NotWritten(descs, key, c, k + 1, d.slot);
        assert r.inst[d.slot] == next[d.slot];
        forall j | k < j < |descs| && Match(descs[j], key, c)
          ensures r.inst[descs[j].slot] == Written(lib, descs[j].memberType, inst[descs[j].slot], BoundAll(descs[j].memberType, values))
        {
          assert descs[k].slot != descs[j].slot;
          assert next[descs[j].slot] == inst[descs[j].slot];
        }
      }
    }
  }

  /** One group whose values all convert: every matching member ends up
      holding what the setter loop writes, every other slot is unchanged,
      and when there was a value and a match no error is recorded. */
  lemma BindGroupWrites(lib: Library, c: Comparison, b: Binding, g: Group)
    requires BindingOk(b) && DistinctSlots(b.descs)
    requires MatchesConvert(lib, b.descs, g.key, c, g.values, 0)
    ensures var r := BindGroup(lib, c, b, g);
      forall j :: 0 <= j < |b.descs| && Match(b.descs[j], g.key, c) ==>
        r.inst[b.descs[j].slot] == Written(lib, b.descs[j].memberType, b.inst[b.descs[j].slot], BoundAll(b.descs[j].memberType, g.values))
    ensures g.values != [] && GetDescriptor(b.descs, g.key, c).Some? ==> BindGroup(lib, c, b, g).errors == b.errors
  {
    SetMatchingWrites(lib, c, b.descs, g.key, g.values, 0, b.inst, false);
  }

  /** One value that converts, written through a scalar setter. */
  lemma SetEachScalar(lib: Library, t: TypeTag, slot: nat, inst: seq<Value>, x: string)
    requires slot < |inst| && !IsList(t) && Create(lib, t, x).Ok?
    ensures SetEach(lib, t, slot, inst, [x]) == (inst[slot := Create(lib, t, x).value], None)
  {
    assert Set(lib, t, slot, inst, x) == Ok(inst[slot := Create(lib, t, x).value]);
  }

  /** A `Set` that applied something clears `required` on the first
      matching descriptor and records nothing. */
  lemma BindGroupApplied(lib: Library, c: Comparison, b: Binding, g: Group, i: nat, inst: seq<Value>)
    requires BindingOk(b) && GetDescriptor(b.descs, g.key, c) == Some(i)
    requires SetMatching(lib, c, b.descs, g.key, g.values, 0, b.inst, false) == Applied(inst, true)
    ensures BindGroup(lib, c, b, g) == Binding(b.descs[i := b.descs[i].(required := false)], inst, b.errors)
  {
  }

  /** The usual case: a key naming exactly one scalar descriptor, with one
      value that converts, overwrites that member, clears `required` on
      that descriptor, and records no error. */
  lemma BindScalar(lib: Library, c: Comparison, b: Binding, key: string, v: string, i: nat)
    requires BindingOk(b) && i < |b.descs|
    requires Match(b.descs[i], key, c)
    requires forall j :: 0 <= j < |b.descs| && j != i ==> !Match(b.descs[j], key, c)
    requires !IsList(b.descs[i].memberType)
    requires Create(lib, b.descs[i].memberType, Bound(b.descs[i].memberType, v)).Ok?
    ensures var d := b.descs[i];
      BindGroup(lib, c, b, Group(key, [v]))
      == Binding(b.descs[i := d.(required := false)],
                 b.inst[d.slot := Create(lib, d.memberType, Bound(d.memberType, v)).value],
                 b.errors)
  {
    var d := b.descs[i];
    var next := b.inst[d.slot := Create(lib, d.memberType, Bound(d.memberType, v)).value];
    SetMatchingScalar(lib, c, b.descs, key, v, i, b.inst);
    assert GetDescriptor(b.descs, key, c) == Some(i);
    BindGroupApplied(lib, c, b, Group(key, [v]), i, next);
  }

  /** `Set` with one value and one matching scalar descriptor. */
  lemma SetMatchingScalar(lib: Library, c: Comparison, descs: seq<Descriptor>, key: string, v: string, i: nat,
                          inst: seq<Value>)
    requires i < |descs| && Fits(descs, inst) && SlotsTyped(descs)
    requires Match(descs[i], key, c)
    requires forall j :: 0 <= j < |descs| && j != i ==> !Match(descs[j], key, c)
    requires !IsList(descs[i].memberType)
    requires Create(lib, descs[i].memberType, Bound(descs[i].memberType, v)).Ok?
    ensures var d := descs[i];
      SetMatching(lib, c, descs, key, [v], 0, inst, false)
      == Applied(inst[d.slot := Create(lib, d.memberType, Bound(d.memberType, v)).value], true)
  {
    var d := descs[i];
    var x := Bound(d.memberType, v);
    var next := inst[d.slot := Create(lib, d.memberType, x).value];
    NoneMatchBefore(descs, key, c, 0, i);
    SetMatchingSkip(lib, c, descs, key, [v], 0, i, inst, false);
    assert BoundAll(d.memberType, [v]) == [x];
    SetEachScalar(lib, d.memberType, d.slot, inst, x);
    SetMatchingHit(lib, c, descs, key, [v], i, inst, next, false);
    NoneMatchBefore(descs, key, c, i + 1, |descs|);
    SetMatchingNone(lib, c, descs, key, [v], i + 1, next, true);
  }

  /** A conversion failure on the first matching descriptor of a scalar
      member is recorded with the key, the first value and that member's
      type; the configuration object and the `required` flags stay as
      they were. */
  lemma BindFailure(lib: Library, c: Comparison, b: Binding, g: Group, i: nat, inner: string)
    requires BindingOk(b) && GetDescriptor(b.descs, g.key, c) == Some(i) && |g.values| > 0
    requires !IsList(b.descs[i].memberType)
    requires Create(lib, b.descs[i].memberType, Bound(b.descs[i].memberType, g.values[0])) == Err(Invoked(inner))
    ensures BindGroup(lib, c, b, g)
         == Binding(b.descs, b.inst, b.errors + [TypedError(Str(g.key), Str(g.values[0]), b.descs[i].memberType, Str(inner))])
  {
    var d := b.descs[i];
    var vs := BoundAll(d.memberType, g.values);
    NoneMatchBefore(b.descs, g.key, c, 0, i);
    SetMatchingSkip(lib, c, b.descs, g.key, g.values, 0, i, b.inst, false);
    assert vs[0] == Bound(d.memberType, g.values[0]);
    SetEachFailsFirst(lib, d.memberType, d.slot, b.inst, vs);
    assert SetMatching(lib, c, b.descs, g.key, g.values, i, b.inst, false) == Aborted(b.inst, Invoked(inner));
    BindGroupAborted(lib, c, b, g);
  }

  /** A first value that does not convert stops the setter loop at once. */
  lemma SetEachFailsFirst(lib: Library, t: TypeTag, slot: nat, inst: seq<Value>, values: seq<string>)
    requires slot < |inst| && ListSlotOk(t, inst[slot]) && values != []
    requires Create(lib, CoercionTarget(t), values[0]).Err?
    ensures SetEach(lib, t, slot, inst, values) == (inst, Some(Create(lib, CoercionTarget(t), values[0]).error))
  {
  }

  /** An aborted `Set` keeps the writes made before the failure, records
      the conversion error with the first matching descriptor's type, and
      changes no `required` flag. */
  lemma BindGroupAborted(lib: Library, c: Comparison, b: Binding, g: Group)
    requires BindingOk(b)
    requires SetMatching(lib, c, b.descs, g.key, g.values, 0, b.inst, false).Aborted?
    ensures GetDescriptor(b.descs, g.key, c).Some? && g.values != []
    ensures var a := SetMatching(lib, c, b.descs, g.key, g.values, 0, b.inst, false);
      BindGroup(lib, c, b, g) == Binding(b.descs, a.inst, b.errors +
        [ConversionError(g.key, g.values[0], b.descs[GetDescriptor(b.descs, g.key, c).value].memberType, a.failure)])
  {
  }

  lemma TailJoin<T>(x: seq<T>, y: seq<T>, z: seq<T>)
    requires |x| <= |y| <= |z| && y[..|x|] == x && z[..|y|] == y
    ensures z[|x|..] == y[|x|..] + z[|y|..]
  {
    assert z[|x|..] == z[|x|..|y|] + z[|y|..];
    assert z[|x|..|y|] == z[..|y|][|x|..];
  }

  predicate IsConversionError(e: Error) {
    e.TypedError? || e.ArgumentError?
  }

  /** For a group the tokenizer could have stored, the "No matching
      parameter" branch is never taken: the only error binding can record
      is a conversion failure. `descs0` are the descriptors the tokenizer
      resolved keys against; binding has since changed at most their
      `required` flags. */
  lemma BindGroupResolved(lib: Library, s: Settings, descs0: seq<Descriptor>, b: Binding, g: Group)
    requires BindingOk(b) && SameShape(descs0, b.descs) && GroupOk(s, descs0, g)
    ensures var r := BindGroup(lib, s.caseMatching, b, g);
      forall e :: e in r.errors[|b.errors|..] ==> IsConversionError(e)
  {
    FindFromAgree(b.descs, descs0, g.key, s.caseMatching, 0);
    var r := BindGroup(lib, s.caseMatching, b, g);
    match SetMatching(lib, s.caseMatching, b.descs, g.key, g.values, 0, b.inst, false)
    case Aborted(inst, f) =>
      assert r.errors[|b.errors|..] == [r.errors[|b.errors|]];
    case Applied(inst, any) =>
      assert any;
      assert r.errors == b.errors;
  }

  /** Under the tokenizer's guarantee on the groups, every error the loop
      adds is a conversion failure. */
  lemma {:induction false} BindAllResolved(lib: Library, s: Settings, descs0: seq<Descriptor>, b: Binding, groups: seq<Group>)
    requires BindingOk(b) && SameShape(descs0, b.descs)
    requires forall k :: 0 <= k < |groups| ==> GroupOk(s, descs0, groups[k])
    ensures var r := BindAll(lib, s.caseMatching, b, groups);
      forall e :: e in r.errors[|b.errors|..] ==> IsConversionError(e)
    decreases |groups|
  {
    if groups != [] {
      var b' := BindGroup(lib, s.caseMatching, b, groups[0]);
      var r := BindAll(lib, s.caseMatching, b', groups[1..]);
      BindAllCons(lib, s.caseMatching, b, groups);
      BindGroupResolved(lib, s, descs0, b, groups[0]);
      SameShapeTrans(descs0, b.descs, b'.descs);
      BindAllResolved(lib, s, descs0, b', groups[1..]);
      TailJoin(b.errors, b'.errors, r.errors);
    }
  }

  /** A descriptor that no group's key resolves to keeps its `required`
      flag through the loop. */
  lemma {:induction false} RequiredUntilResolved(lib: Library, c: Comparison, b: Binding, groups: seq<Group>, i: nat)
    requires BindingOk(b) && i < |b.descs| && b.descs[i].required
    requires forall k :: 0 <= k < |groups| ==> GetDescriptor(b.descs, groups[k].key, c) != Some(i)
    ensures BindAll(lib, c, b, groups).descs[i].required
    decreases |groups|
  {
    if groups != [] {
      var b' := BindGroup(lib, c, b, groups[0]);
      forall k | 0 <= k < |groups[1..]| ensures GetDescriptor(b'.descs, groups[1..][k].key, c) != Some(i) {
        FindFromAgree(b'.descs, b.descs, groups[1..][k].key, c, 0);
        assert groups[1..][k] == groups[k + 1];
      }
      RequiredUntilResolved(lib, c, b', groups[1..], i);
    }
  }

  /** The errors for the descriptors still required after the loop, in
      descriptor order. */
  function Missing(descs: seq<Descriptor>): (r: seq<Error>)
    ensures |r| <= |descs|
    ensures forall e :: e in r ==> e.ReasonError? && e.parameterValue == Str("") && e.reason == RequiredReason
    ensures forall i :: 0 <= i < |descs| && descs[i].required ==> ReasonError(descs[i].name, Str(""), RequiredReason) in r
    ensures forall e :: e in r ==> exists i :: 0 <= i < |descs| && descs[i].required && e.parameterName == descs[i].name
  {
    if descs == [] then []
    else
      (if descs[0].required then [ReasonError(descs[0].name, Str(""), RequiredReason)] else [])
      + Missing(descs[1..])
  }

  /** The report keeps descriptor order: the report for two runs of
      descriptors is the two reports one after the other, and a single
      descriptor adds one error when it is still required and none
      otherwise. */
  lemma {:induction false} MissingSplit(a: seq<Descriptor>, b: seq<Descriptor>)
    ensures Missing(a + b) == Missing(a) + Missing(b)
    decreases |a|
  {
    if a != [] {
      assert (a + b)[0] == a[0] && (a + b)[1..] == a[1..] + b;
      MissingSplit(a[1..], b);
    } else {
      assert a + b == b;
    }
  }

  lemma MissingOne(d: Descriptor)
    ensures Missing([d]) == if d.required then [ReasonError(d.name, Str(""), RequiredReason)] else []
  {
  }

  /** The positions of the descriptors still required. */
  function RequiredAt(descs: seq<Descriptor>): (r: set<nat>)
    ensures forall i: int :: i in r <==> 0 <= i < |descs| && descs[i].required
  {
    set i: nat | i < |descs| && descs[i].required
  }

  lemma RequiredAtSnoc(front: seq<Descriptor>, d: Descriptor)
    ensures RequiredAt(front + [d]) == RequiredAt(front) + (if d.required then {|front|} else {})
    ensures |front| !in RequiredAt(front)
  {
    var all := front + [d];
    forall i: nat ensures i in RequiredAt(all) <==> i in RequiredAt(front) + (if d.required then {|front|} else {}) {
      if i < |front| {
        assert all[i] == front[i];
      }
    }
  }

  /** Exactly one error per descriptor still required. */
  lemma {:induction false} MissingCount(descs: seq<Descriptor>)
    ensures |Missing(descs)| == |RequiredAt(descs)|
    decreases |descs|
  {
    if descs == [] {
      assert RequiredAt(descs) == {};
    } else {
      var n := |descs| - 1;
      var front := descs[..n];
      var last := descs[n];
      MissingCount(front);
      assert descs == front + [last];
      MissingSplit(front, [last]);
      MissingOne(last);
      RequiredAtSnoc(front, last);
    }
  }

  // ---------------------------------------------------------------------
  // The pipeline

  /** The outcome of the static `Parse`: the loop over the tokens never
      ends, or some errors were collected (the caller sees them together),
      or the configuration object and the positional arguments. */
  datatype Outcome = NeverReturns | Failed(errors: seq<Error>) | Parsed(inst: seq<Value>, positional: seq<string>)

  /** The member table agrees with the initial configuration object. */
  predicate MembersFit(members: seq<Member>, inst: seq<Value>) {
    forall m :: m in members ==> m.slot < |inst| && ListSlotOk(m.memberType, inst[m.slot])
  }

  /** Members sharing a slot share a type. */
  predicate MembersTyped(members: seq<Member>) {
    forall m, n :: m in members && n in members && m.slot == n.slot ==> m.memberType == n.memberType
  }

  lemma {:induction false} SuccessesFromMembers(s: Settings, members: seq<Member>)
    ensures forall d :: d in Successes(s, members) ==>
      exists m :: m in members && d.slot == m.slot && d.memberType == m.memberType
    decreases |members|
  {
    if members != [] {
      SuccessesFromMembers(s, members[1..]);
      var head := SuccessOf(AddDescriptor(s, members[0]));
      assert Successes(s, members) == head + Successes(s, members[1..]);
      forall d | d in Successes(s, members)
        ensures exists m :: m in members && d.slot == m.slot && d.memberType == m.memberType
      {
        if d in head {
          assert members[0] in members;
        } else {
          var m :| m in members[1..] && d.slot == m.slot && d.memberType == m.memberType;
          assert m in members;
        }
      }
    }
  }

  lemma DistinctJoin(a: seq<Descriptor>, b: seq<Descriptor>)
    requires DistinctSlots(a) && DistinctSlots(b)
    requires forall x, y :: x in a && y in b ==> x.slot != y.slot
    ensures DistinctSlots(a + b)
  {
    forall i, j | 0 <= i < j < |a + b| ensures (a + b)[i].slot != (a + b)[j].slot {
      if j < |a| {
        assert (a + b)[i] == a[i] && (a + b)[j] == a[j];
      } else if i >= |a| {
        assert (a + b)[i] == b[i - |a|] && (a + b)[j] == b[j - |a|];
      } else {
        assert (a + b)[i] in a && (a + b)[j] in b;
      }
    }
  }

  /** Members apart give descriptors apart. */
  lemma {:induction false} SuccessesDistinct(s: Settings, members: seq<Member>)
    requires MembersDistinct(members)
    ensures DistinctSlots(Successes(s, members))
    decreases |members|
  {
    if members != [] {
      var rest := members[1..];
      forall i, j | 0 <= i < j < |rest| ensures rest[i].slot != rest[j].slot {
        assert rest[i] == members[i + 1] && rest[j] == members[j + 1];
      }
      SuccessesDistinct(s, rest);
      SuccessesFromMembers(s, rest);
      var head := SuccessOf(AddDescriptor(s, members[0]));
      var tail := Successes(s, rest);
      assert Successes(s, members) == head + tail;
      forall x, y | x in head && y in tail ensures x.slot != y.slot {
        var m :| m in rest && y.slot == m.slot && y.memberType == m.memberType;
        var k :| 0 <= k < |rest| && rest[k] == m;
        assert members[k + 1] == m;
      }
      DistinctJoin(head, tail);
    }
  }

  /** The builder gives each member at most one descriptor, so the
      descriptors of a class whose members are apart write distinct
      slots. */
  lemma BuiltDistinct(s: Settings, properties: seq<Member>, fields: seq<Member>)
    requires MembersDistinct(properties + fields)
    ensures DistinctSlots(BuildDescriptors(s, properties, fields).descs)
  {
    BuiltAreSuccesses(s, properties, fields);
    FilterDistinct(properties, fields);
    SuccessesDistinct(s, Bindable(properties, fields));
  }

  /** Descriptors made from members of a table fit what the table fits. */
  lemma SuccessesFit(s: Settings, members: seq<Member>, all: seq<Member>, inst: seq<Value>)
    requires MembersFit(all, inst) && MembersTyped(all)
    requires forall m :: m in members ==> m in all
    ensures BindingOk(Binding(Successes(s, members), inst, []))
  {
    var descs := Successes(s, members);
    SuccessesFromMembers(s, members);
    forall i | 0 <= i < |descs|
      ensures descs[i].slot < |inst| && ListSlotOk(descs[i].memberType, inst[descs[i].slot])
    {
      assert descs[i] in descs;
    }
    forall i, j | 0 <= i < |descs| && 0 <= j < |descs| && descs[i].slot == descs[j].slot
      ensures descs[i].memberType == descs[j].memberType
    {
      assert descs[i] in descs && descs[j] in descs;
    }
  }

  lemma BuiltAreSuccesses(s: Settings, properties: seq<Member>, fields: seq<Member>)
    ensures BuildDescriptors(s, properties, fields).descs == Successes(s, Bindable(properties, fields))
    ensures forall m :: m in Bindable(properties, fields) ==> m in properties + fields
  {
    AddAllSplits(s, Bindable(properties, fields), Built([], []));
  }

  /** `BuildDescriptors` only produces descriptors for members, so the
      descriptors fit whatever the members fit. */
  lemma BuiltFits(s: Settings, properties: seq<Member>, fields: seq<Member>, inst: seq<Value>)
    requires MembersFit(properties + fields, inst) && MembersTyped(properties + fields)
    ensures BindingOk(Binding(BuildDescriptors(s, properties, fields).descs, inst, []))
  {
    BuiltAreSuccesses(s, properties, fields);
    SuccessesFit(s, Bindable(properties, fields), properties + fields, inst);
  }

  /** The static `Processor.Parse`: build the descriptors, tokenize from
      `start`, bind the groups, then report the required descriptors left
      unset. `inst` is the newly constructed configuration object. */
  function Parse(lib: Library, s: Settings, properties: seq<Member>, fields: seq<Member>,
                 inst: seq<Value>, args: seq<string>, start: int): (r: Outcome)
    requires MembersFit(properties + fields, inst) && MembersTyped(properties + fields)
    ensures r.NeverReturns? <==>
      Run(s, BuildDescriptors(s, properties, fields).descs, args, start, BuildDescriptors(s, properties, fields).errors).Diverges?
    ensures r.Failed? ==> |r.errors| > 0
    ensures r.Parsed? ==> |r.inst| == |inst|
  {
    var built := BuildDescriptors(s, properties, fields);
    BuiltFits(s, properties, fields, inst);
    match Run(s, built.descs, args, start, built.errors)
    case Diverges => NeverReturns
    case Tokens(groups, positional, errors) =>
      var b := BindAll(lib, s.caseMatching, Binding(built.descs, inst, errors), groups);
      var all := b.errors + Missing(b.descs);
      if all == [] then Parsed(b.inst, positional) else Failed(all)
  }

  /** The error list of a parse, in order: the builder's errors, then the
      tokenizer's, then the conversion failures of binding, then one
      missing-required error per descriptor left required. The parse fails
      exactly when that list is non-empty. */
  lemma ParseErrors(lib: Library, s: Settings, properties: seq<Member>, fields: seq<Member>,
                    inst: seq<Value>, args: seq<string>, start: int)
    requires MembersFit(properties + fields, inst) && MembersTyped(properties + fields)
    requires var built := BuildDescriptors(s, properties, fields);
      Run(s, built.descs, args, start, built.errors).Tokens?
    ensures var built := BuildDescriptors(s, properties, fields);
      var t := Run(s, built.descs, args, start, built.errors);
      BindingOk(Binding(built.descs, inst, t.errors)) &&
      var b := BindAll(lib, s.caseMatching, Binding(built.descs, inst, t.errors), t.groups);
      var r := Parse(lib, s, properties, fields, inst, args, start);
      && |built.errors| <= |t.errors| && t.errors[..|built.errors|] == built.errors
      && |t.errors| <= |b.errors| && t.errors == b.errors[..|t.errors|]
      && (forall e :: e in b.errors[|t.errors|..] ==> IsConversionError(e))
      && (r.Failed? <==> b.errors + Missing(b.descs) != [])
      && (r.Failed? ==> r.errors == b.errors + Missing(b.descs))
      && (r.Parsed? ==> r.inst == b.inst && r.positional == t.positional)
  {
    var built := BuildDescriptors(s, properties, fields);
    var cursor := Cursor(start, true, [], [], built.errors);
    TokenizeExtends(s, built.descs, args, cursor);
    RunGroupsOk(s, built.descs, args, start, built.errors);
    BuiltFits(s, properties, fields, inst);
    var t := Run(s, built.descs, args, start, built.errors);
    var b0 := Binding(built.descs, inst, t.errors);
    BindAllResolved(lib, s, built.descs, b0, t.groups);
  }

  /** A required descriptor that no stored key resolves to is reported
      by name with an empty value, and the parse fails. */
  lemma UnsetRequiredReported(lib: Library, s: Settings, properties: seq<Member>, fields: seq<Member>,
                              inst: seq<Value>, args: seq<string>, start: int, i: nat)
    requires MembersFit(properties + fields, inst) && MembersTyped(properties + fields)
    requires var built := BuildDescriptors(s, properties, fields);
      && Run(s, built.descs, args, start, built.errors).Tokens?
      && i < |built.descs| && built.descs[i].required
      && var groups := Run(s, built.descs, args, start, built.errors).groups;
         forall k :: 0 <= k < |groups| ==> GetDescriptor(built.descs, groups[k].key, s.caseMatching) != Some(i)
    ensures var r := Parse(lib, s, properties, fields, inst, args, start);
      r.Failed? && ReasonError(BuildDescriptors(s, properties, fields).descs[i].name, Str(""), RequiredReason) in r.errors
  {
    var built := BuildDescriptors(s, properties, fields);
    var t := Run(s, built.descs, args, start, built.errors);
    BuiltFits(s, properties, fields, inst);
    var b0 := Binding(built.descs, inst, t.errors);
    var b := BindAll(lib, s.caseMatching, b0, t.groups);
    RequiredUntilResolved(lib, s.caseMatching, b0, t.groups, i);
    assert b.descs[i].(required := false) == built.descs[i].(required := false);
    assert b.descs[i].name == built.descs[i].name;
    var e := ReasonError(b.descs[i].name, Str(""), RequiredReason);
    assert e in Missing(b.descs);
    assert e in b.errors + Missing(b.descs);
  }

  /** No required descriptor, no missing-required error. */
  lemma {:induction false} MissingNone(descs: seq<Descriptor>)
    requires forall i :: 0 <= i < |descs| ==> !descs[i].required
    ensures Missing(descs) == []
  {
    if descs != [] {
      MissingNone(descs[1..]);
    }
  }

  /** A command line without switches from `start` on, for a class whose
      descriptors build cleanly and include no required one, parses to the
      untouched configuration object and the trimmed tokens as positional
      arguments. */
  lemma PlainParse(lib: Library, s: Settings, properties: seq<Member>, fields: seq<Member>,
                   inst: seq<Value>, args: seq<string>, start: int)
    requires MembersFit(properties + fields, inst) && MembersTyped(properties + fields)
    requires 0 <= start <= |args| && NoSwitches(s.switchPrefixes, args[start..])
    requires BuildDescriptors(s, properties, fields).errors == []
    requires var descs := BuildDescriptors(s, properties, fields).descs;
      forall i :: 0 <= i < |descs| ==> !descs[i].required
    ensures Parse(lib, s, properties, fields, inst, args, start)
         == Parsed(inst, SuspendedText(s.switchPrefixes, args[start..]))
  {
    var built := BuildDescriptors(s, properties, fields);
    var plain := SuspendedText(s.switchPrefixes, args[start..]);
    PlainRun(s, built.descs, args, start);
    MissingNone(built.descs);
    ParseOfTokens(lib, s, properties, fields, inst, args, start, [], plain, []);
    BindAllNil(lib, s.caseMatching, Binding(built.descs, inst, []));
  }

  lemma BindAllNil(lib: Library, c: Comparison, b: Binding)
    requires BindingOk(b)
    ensures BindAll(lib, c, b, []) == b
  {
  }

  lemma ParseOfTokens(lib: Library, s: Settings, properties: seq<Member>, fields: seq<Member>,
                      inst: seq<Value>, args: seq<string>, start: int,
                      groups: seq<Group>, positional: seq<string>, errors: seq<Error>)
    requires MembersFit(properties + fields, inst) && MembersTyped(properties + fields)
    requires var built := BuildDescriptors(s, properties, fields);
      Run(s, built.descs, args, start, built.errors) == Tokens(groups, positional, errors)
    ensures var descs := BuildDescriptors(s, properties, fields).descs;
      BindingOk(Binding(descs, inst, errors)) &&
      var b := BindAll(lib, s.caseMatching, Binding(descs, inst, errors), groups);
      Parse(lib, s, properties, fields, inst, args, start)
      == if b.errors + Missing(b.descs) == [] then Parsed(b.inst, positional) else Failed(b.errors + Missing(b.descs))
  {
    BuiltFits(s, properties, fields, inst);
  }
}

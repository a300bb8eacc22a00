/** `SetterFactory`: the write operation bound to one member. A scalar
    member is overwritten; a list-shaped member gets one element appended,
    its list being created first when it is still null. */
module Setter {
  import opened Base
  import opened Types
  import opened Coercion

  /** The value a list-shaped member may hold: null or a list. */
  predicate ListSlotOk(t: TypeTag, v: Value) {
    IsList(t) ==> v.NullValue? || v.ListValue?
  }

  /** The setter `GetSetter()` builds for a member of type `t` stored in
      `inst[slot]`, applied to the string `s`. The element is coerced
      before the list is looked at, so a failed coercion changes nothing;
      when the list is null and the list type has no parameterless
      constructor, the value is silently dropped. */
  function Set(lib: Library, t: TypeTag, slot: nat, inst: seq<Value>, s: string)
    : (r: Result<seq<Value>, Failure>)
    requires slot < |inst| && ListSlotOk(t, inst[slot])
    ensures r.Err? <==> Create(lib, CoercionTarget(t), s).Err?
    ensures r.Err? ==> r.error == Create(lib, CoercionTarget(t), s).error
    ensures r.Ok? ==> |r.value| == |inst| && ListSlotOk(t, r.value[slot])
    ensures r.Ok? ==> forall j :: 0 <= j < |inst| && j != slot ==> r.value[j] == inst[j]
    ensures r.Ok? && !IsList(t) ==> r.value[slot] == Create(lib, t, s).value
    ensures r.Ok? && IsList(t) && inst[slot].ListValue? ==>
      r.value[slot] == ListValue(inst[slot].items + [Create(lib, t.listOf.value, s).value])
    ensures r.Ok? && IsList(t) && inst[slot].NullValue? && t.defaultConstructor ==>
      r.value[slot] == ListValue([Create(lib, t.listOf.value, s).value])
    ensures r.Ok? && IsList(t) && inst[slot].NullValue? && !t.defaultConstructor ==>
      r.value == inst
  {
    match t.listOf
    case None =>
      var v :- Create(lib, t, s);
      Ok(inst[slot := v])
    case Some(element) =>
      var v :- Create(lib, element, s);
      var list := inst[slot];
      if list.NullValue? then
        if t.defaultConstructor then Ok(inst[slot := ListValue([v])]) else Ok(inst)
      else
        Ok(inst[slot := ListValue(list.items + [v])])
  }

  /** Applies the setter to each string in turn, stopping at the first
      failure; the values written before it stay written. */
  function SetEach(lib: Library, t: TypeTag, slot: nat, inst: seq<Value>, values: seq<string>)
    : (r: (seq<Value>, Option<Failure>))
    requires slot < |inst| && ListSlotOk(t, inst[slot])
    ensures |r.0| == |inst| && ListSlotOk(t, r.0[slot])
    ensures forall j :: 0 <= j < |inst| && j != slot ==> r.0[j] == inst[j]
    ensures r.1.Some? ==> values != []
    decreases |values|
  {
    if values == [] then (inst, None)
    else
      match Set(lib, t, slot, inst, values[0])
      case Err(f) => (inst, Some(f))
      case Ok(next) => SetEach(lib, t, slot, next, values[1..])
  }

  /** Every value coerces successfully. */
  predicate AllCoerce(lib: Library, t: TypeTag, values: seq<string>) {
    forall i :: 0 <= i < |values| ==> Create(lib, t, values[i]).Ok?
  }

  /** The coerced values, in order. */
  function CoerceAll(lib: Library, t: TypeTag, values: seq<string>): (r: seq<Value>)
    requires AllCoerce(lib, t, values)
    ensures |r| == |values|
    ensures forall i :: 0 <= i < |values| ==> r[i] == Create(lib, t, values[i]).value
  {
    if values == [] then [] else [Create(lib, t, values[0]).value] + CoerceAll(lib, t, values[1..])
  }

  lemma SetAppendsOne(lib: Library, t: TypeTag, slot: nat, inst: seq<Value>, s: string)
    requires slot < |inst| && IsList(t) && inst[slot].ListValue? && Create(lib, t.listOf.value, s).Ok?
    ensures Set(lib, t, slot, inst, s)
         == Ok(inst[slot := ListValue(inst[slot].items + [Create(lib, t.listOf.value, s).value])])
  {
  }

  lemma SetEachStep(lib: Library, t: TypeTag, slot: nat, inst: seq<Value>, values: seq<string>)
    requires slot < |inst| && ListSlotOk(t, inst[slot])
    requires |values| > 0 && Set(lib, t, slot, inst, values[0]).Ok?
    ensures SetEach(lib, t, slot, inst, values) == SetEach(lib, t, slot, Set(lib, t, slot, inst, values[0]).value, values[1..])
  {
  }

  lemma CoerceAllCons(lib: Library, t: TypeTag, values: seq<string>)
    requires |values| > 0 && AllCoerce(lib, t, values)
    ensures AllCoerce(lib, t, values[1..])
    ensures CoerceAll(lib, t, values) == [Create(lib, t, values[0]).value] + CoerceAll(lib, t, values[1..])
  {
    forall i | 0 <= i < |values[1..]| ensures Create(lib, t, values[1..][i]).Ok? {
      assert values[1..][i] == values[i + 1];
    }
  }

  /** Repeated writes to a list that already exists append every coerced
      value, in order, and keep the existing elements. */
  lemma {:induction false} AppendsInOrder(lib: Library, t: TypeTag, slot: nat, inst: seq<Value>, values: seq<string>)
    requires slot < |inst| && IsList(t) && inst[slot].ListValue?
    requires AllCoerce(lib, t.listOf.value, values)
    ensures var r := SetEach(lib, t, slot, inst, values);
      r.1.None? && r.0[slot] == ListValue(inst[slot].items + CoerceAll(lib, t.listOf.value, values))
    decreases |values|
  {
    if values != [] {
      var element := t.listOf.value;
      var e := Create(lib, element, values[0]).value;
      var next := inst[slot := ListValue(inst[slot].items + [e])];
      AppendStep(lib, t, slot, inst, values);
      CoerceAllCons(lib, element, values);
      AppendsInOrder(lib, t, slot, next, values[1..]);
      Regroup(inst[slot].items, e, CoerceAll(lib, element, values[1..]));
    }
  }

  lemma Regroup<T>(a: seq<T>, e: T, rest: seq<T>)
    ensures (a + [e]) + rest == a + ([e] + rest)
  {
  }

  /** The first write to an existing list, as the recursion sees it. */
  lemma AppendStep(lib: Library, t: TypeTag, slot: nat, inst: seq<Value>, values: seq<string>)
    requires slot < |inst| && IsList(t) && inst[slot].ListValue?
    requires |values| > 0 && Create(lib, t.listOf.value, values[0]).Ok?
    ensures var next := inst[slot := ListValue(inst[slot].items + [Create(lib, t.listOf.value, values[0]).value])];
      SetEach(lib, t, slot, inst, values) == SetEach(lib, t, slot, next, values[1..])
      && next[slot].ListValue? && next[slot].items == inst[slot].items + [Create(lib, t.listOf.value, values[0]).value]
  {
    SetAppendsOne(lib, t, slot, inst, values[0]);
    SetEachStep(lib, t, slot, inst, values);
  }

  /** A null list whose type can be constructed ends up holding exactly
      the coerced values. */
  lemma CreatesThenAppends(lib: Library, t: TypeTag, slot: nat, inst: seq<Value>, values: seq<string>)
    requires slot < |inst| && IsList(t) && inst[slot].NullValue? && t.defaultConstructor
    requires |values| > 0 && AllCoerce(lib, t.listOf.value, values)
    ensures SetEach(lib, t, slot, inst, values).1.None?
    ensures SetEach(lib, t, slot, inst, values).0[slot] == ListValue(CoerceAll(lib, t.listOf.value, values))
  {
    var next := Set(lib, t, slot, inst, values[0]).value;
    AppendsInOrder(lib, t, slot, next, values[1..]);
  }

  /** A null list whose type cannot be constructed drops every value. */
  lemma {:induction false} NullListDropsAll(lib: Library, t: TypeTag, slot: nat, inst: seq<Value>, values: seq<string>)
    requires slot < |inst| && IsList(t) && inst[slot].NullValue? && !t.defaultConstructor
    requires AllCoerce(lib, t.listOf.value, values)
    ensures SetEach(lib, t, slot, inst, values) == (inst, None)
    decreases |values|
  {
    if values != [] {
      assert Set(lib, t, slot, inst, values[0]) == Ok(inst);
      CoerceAllCons(lib, t.listOf.value, values);
      NullListDropsAll(lib, t, slot, inst, values[1..]);
    }
  }

  /** What a run of writes that all convert leaves in a member's slot: no
      values change nothing; a scalar holds the last value; a list gets
      every value appended in order, being created first when it is null
      and its type constructible, and stays null otherwise. */
  function Written(lib: Library, t: TypeTag, before: Value, values: seq<string>): Value
    requires AllCoerce(lib, CoercionTarget(t), values)
  {
    if values == [] then before
    else if !IsList(t) then Create(lib, t, values[|values| - 1]).value
    else if before.ListValue? then ListValue(before.items + CoerceAll(lib, t.listOf.value, values))
    else if t.defaultConstructor then ListValue(CoerceAll(lib, t.listOf.value, values))
    else before
  }

  /** The setter loop over values that all convert stores exactly what
      `Written` describes in the member's slot and leaves every other slot
      alone. */
  lemma SetEachWritten(lib: Library, t: TypeTag, slot: nat, inst: seq<Value>, values: seq<string>)
    requires slot < |inst| && ListSlotOk(t, inst[slot]) && AllCoerce(lib, CoercionTarget(t), values)
    ensures SetEach(lib, t, slot, inst, values) == (inst[slot := Written(lib, t, inst[slot], values)], None)
  {
    var r := SetEach(lib, t, slot, inst, values);
    if values == [] {
    } else if !IsList(t) {
      LastWriteWins(lib, t, slot, inst, values);
    } else if inst[slot].ListValue? {
      AppendsInOrder(lib, t, slot, inst, values);
    } else if t.defaultConstructor {
      CreatesThenAppends(lib, t, slot, inst, values);
    } else {
      NullListDropsAll(lib, t, slot, inst, values);
    }
    assert r.0 == inst[slot := Written(lib, t, inst[slot], values)];
  }

  /** Repeated writes to a scalar member leave only the last value. */
  lemma {:induction false} LastWriteWins(lib: Library, t: TypeTag, slot: nat, inst: seq<Value>, values: seq<string>)
    requires slot < |inst| && !IsList(t) && |values| > 0
    requires AllCoerce(lib, t, values)
    ensures SetEach(lib, t, slot, inst, values).1.None?
    ensures SetEach(lib, t, slot, inst, values).0[slot] == Create(lib, t, values[|values| - 1]).value
    decreases |values|
  {
    var next := Set(lib, t, slot, inst, values[0]).value;
    if |values| > 1 {
      LastWriteWins(lib, t, slot, next, values[1..]);
    }
  }

  /** A failing value stops the run and reports its own failure. */
  lemma {:induction false} StopsAtFirstFailure(lib: Library, t: TypeTag, slot: nat, inst: seq<Value>, values: seq<string>, k: nat)
    requires slot < |inst| && ListSlotOk(t, inst[slot])
    requires k < |values| && AllCoerce(lib, CoercionTarget(t), values[..k])
    requires Create(lib, CoercionTarget(t), values[k]).Err?
    ensures SetEach(lib, t, slot, inst, values).1 == Some(Create(lib, CoercionTarget(t), values[k]).error)
    decreases k
  {
    if k > 0 {
      assert values[0] == values[..k][0];
      var next := Set(lib, t, slot, inst, values[0]).value;
      assert values[1..][..k - 1] == values[..k][1..];
      StopsAtFirstFailure(lib, t, slot, next, values[1..], k - 1);
    }
  }
}

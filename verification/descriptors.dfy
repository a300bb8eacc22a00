/** `ArgumentDescriptor` and the name lookup `Context.GetDescriptor`. */
module Descriptors {
  import opened Base
  import opened Text
  import opened Settings
  import opened Types

  /** One bindable member. `slot` identifies the member whose setter the
      descriptor carries; `required` is cleared during a parse once the
      member has been set. */
  datatype Descriptor = Descriptor(
    name: NStr,
    shortName: NStr,
    memberType: TypeTag,
    help: NStr,
    memberName: NStr,
    slot: nat,
    required: bool,
    isList: bool)

  /** A newly constructed descriptor before the builder fills it in. */
  function Fresh(t: TypeTag, slot: nat): (d: Descriptor)
    ensures d.shortName == Str("") && d.help == Str("") && !d.isList && !d.required
    ensures d.name.Null? && d.memberName.Null?
    ensures d.memberType == t && d.slot == slot
  {
    Descriptor(Null, Str(""), t, Str(""), Null, slot, false, false)
  }

  /** `string.Equals(n, name, c)` for a possibly null `n` and a non-null
      `name`. */
  predicate Equals(c: Comparison, n: NStr, name: string) {
    n.Str? && Same(c, n.s, name)
  }

  /** `ArgumentDescriptor.Match`: the long name or the short name equals
      `name`; the member name is consulted only when the long name is null
      or empty. */
  predicate Match(d: Descriptor, name: string, c: Comparison) {
    || Equals(c, d.name, name)
    || Equals(c, d.shortName, name)
    || (IsNullOrEmpty(d.name) && Equals(c, d.memberName, name))
  }

  /** Naming a descriptor by its long or its short name selects it. */
  lemma MatchByEitherName(d: Descriptor, name: string, c: Comparison)
    ensures d.name == Str(name) ==> Match(d, name, c)
    ensures d.shortName == Str(name) ==> Match(d, name, c)
    ensures d.name.Str? && IgnoreCase(c) && Lower(d.name.s) == Lower(name) ==> Match(d, name, c)
  {
  }

  /** With a non-empty long name the member name plays no part. */
  lemma MemberNameIgnoredWhenNamed(d: Descriptor, name: string, c: Comparison, other: NStr)
    requires !IsNullOrEmpty(d.name)
    ensures Match(d.(memberName := other), name, c) <==> Match(d, name, c)
  {
  }

  /** The default short name is the empty string, so an empty key selects
      every descriptor that was not given a short name. */
  lemma EmptyKeyMatchesDefaultShortName(t: TypeTag, slot: nat, c: Comparison)
    ensures Match(Fresh(t, slot), "", c)
  {
  }

  /** The first descriptor at or after `k` that matches `name`. */
  function FindFrom(descs: seq<Descriptor>, name: string, c: Comparison, k: nat): (r: Option<nat>)
    requires k <= |descs|
    ensures r.Some? ==> k <= r.value < |descs| && Match(descs[r.value], name, c)
    ensures r.Some? ==> forall j :: k <= j < r.value ==> !Match(descs[j], name, c)
    ensures r.None? <==> forall j :: k <= j < |descs| ==> !Match(descs[j], name, c)
    decreases |descs| - k
  {
    if k == |descs| then None
    else if Match(descs[k], name, c) then Some(k)
    else FindFrom(descs, name, c, k + 1)
  }

  /** `Context.GetDescriptor` (and `Processor.GetArgumentDescriptor`): the
      index of the first descriptor in list order that matches, under the
      comparison the settings select; `None` stands for null. */
  function GetDescriptor(descs: seq<Descriptor>, name: string, c: Comparison): (r: Option<nat>)
    ensures r.Some? ==> r.value < |descs| && Match(descs[r.value], name, c)
    ensures r.Some? ==> forall j :: 0 <= j < r.value ==> !Match(descs[j], name, c)
    ensures r.None? <==> forall j :: 0 <= j < |descs| ==> !Match(descs[j], name, c)
  {
    FindFrom(descs, name, c, 0)
  }

  /** Lookup does not depend on the `required` flags, so clearing one
      never changes which descriptor a key resolves to. */
  lemma {:induction false} LookupIgnoresRequired(descs: seq<Descriptor>, i: nat, name: string, c: Comparison)
    requires i < |descs|
    ensures GetDescriptor(descs[i := descs[i].(required := false)], name, c) == GetDescriptor(descs, name, c)
  {
    var descs' := descs[i := descs[i].(required := false)];
    FindFromAgree(descs', descs, name, c, 0);
  }

  lemma {:induction false} FindFromAgree(a: seq<Descriptor>, b: seq<Descriptor>, name: string, c: Comparison, k: nat)
    requires |a| == |b| && k <= |a|
    requires forall j :: 0 <= j < |a| ==> a[j].(required := false) == b[j].(required := false)
    ensures FindFrom(a, name, c, k) == FindFrom(b, name, c, k)
    decreases |a| - k
  {
    if k < |a| {
      MatchIgnoresRequired(a[k], b[k], name, c);
      FindFromAgree(a, b, name, c, k + 1);
    }
  }

  lemma MatchIgnoresRequired(d: Descriptor, e: Descriptor, name: string, c: Comparison)
    requires d.(required := false) == e.(required := false)
    ensures Match(d, name, c) == Match(e, name, c)
  {
    assert d.name == e.name && d.shortName == e.shortName && d.memberName == e.memberName by {
      assert d.(required := false).name == e.(required := false).name;
      assert d.(required := false).shortName == e.(required := false).shortName;
      assert d.(required := false).memberName == e.(required := false).memberName;
    }
  }
}

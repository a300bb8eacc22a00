/** `Processor.BuildDescriptors` and `AddDescriptor`: one descriptor per
    bindable member of the configuration class, and the sorted export
    `GetArgumentDescriptors`. Reflection is replaced by an explicit list of
    the class's properties and fields. */
module Builder {
  import opened Base
  import opened Text
  import opened Settings
  import opened Types
  import opened Errors
  import opened Descriptors

  /** An `[Argument]` tag on a member. `name` is the constructor argument
      (null for the parameterless form, which records none); the named
      arguments `ShortName` and `HelpText` are `None` when not given, and an
      absent `Required` reads as false. */
  datatype Tag = Tag(name: NStr, shortName: Option<NStr>, required: bool, help: Option<NStr>)

  /** A property or field of the configuration class: its name, its tag if
      any, its type, and the instance slot it is stored in. */
  datatype Member = Member(name: string, tag: Option<Tag>, memberType: TypeTag, slot: nat)

  const BackingFieldSuffix := "k__BackingField"

  /** `AddDescriptor`: the member name is recorded unless tags are
      required; the tag supplies name, short name, required flag and help;
      a null or empty name falls back to the member name; in an ignore-case
      mode both names are lower-cased, which fails on a null name. */
  function AddDescriptor(s: Settings, m: Member): (r: Result<Descriptor, Error>)
    ensures r.Err? <==> IgnoreCase(s.caseMatching) && s.requireAttributes
                        && (m.tag.None? || IsNullOrEmpty(m.tag.value.name))
    ensures r.Err? ==> r.error == NullReference
    ensures r.Ok? ==> r.value.memberType == m.memberType && r.value.slot == m.slot
                      && r.value.isList == IsList(m.memberType)
    ensures r.Ok? ==> r.value.memberName == (if s.requireAttributes then Null else Str(m.name))
    ensures r.Ok? ==> r.value.required == (m.tag.Some? && m.tag.value.required)
    ensures r.Ok? ==> r.value.help == (if m.tag.Some? && m.tag.value.help.Some? then m.tag.value.help.value else Str(""))
    ensures r.Ok? && m.tag.Some? && !IsNullOrEmpty(m.tag.value.name) ==>
      r.value.name == Str(if IgnoreCase(s.caseMatching) then Lower(m.tag.value.name.s) else m.tag.value.name.s)
    ensures r.Ok? && (m.tag.None? || IsNullOrEmpty(m.tag.value.name)) ==>
      r.value.name == (if s.requireAttributes then Null
                       else Str(if IgnoreCase(s.caseMatching) then Lower(m.name) else m.name))
  {
    var d := Fresh(m.memberType, m.slot);
    var d := if s.requireAttributes then d else d.(memberName := Str(m.name));
    var d := match m.tag
      case None => d
      case Some(tag) =>
        d.(name := tag.name,
           shortName := tag.shortName.GetOr(d.shortName),
           required := tag.required,
           help := tag.help.GetOr(d.help));
    var d := if IsNullOrEmpty(d.name) then d.(name := d.memberName) else d;
    if IgnoreCase(s.caseMatching) && d.name.Null? then Err(NullReference)
    else
      var d := if IgnoreCase(s.caseMatching) then
        d.(name := Str(Lower(d.name.s)),
           shortName := if d.shortName.Null? then Null else Str(Lower(d.shortName.s)))
      else d;
      Ok(d.(isList := IsList(m.memberType)))
  }

  /** The short name a built descriptor carries: the tag's, lower-cased in
      an ignore-case mode, and "" by default. */
  lemma AddDescriptorShortName(s: Settings, m: Member)
    requires AddDescriptor(s, m).Ok?
    ensures var sn := if m.tag.Some? && m.tag.value.shortName.Some? then m.tag.value.shortName.value else Str("");
      AddDescriptor(s, m).value.shortName
        == (if IgnoreCase(s.caseMatching) && sn.Str? then Str(Lower(sn.s)) else sn)
  {
  }

  /** Is this field a compiler-generated property backing field? */
  predicate IsBackingField(m: Member) {
    EndsWithIgnoreCase(m.name, BackingFieldSuffix)
  }

  /** Descriptors and errors collected so far. */
  datatype Built = Built(descs: seq<Descriptor>, errors: seq<Error>)

  /** The members loop: each member adds its descriptor or, when
      `AddDescriptor` throws, its error; the loop carries on either way. */
  function AddAll(s: Settings, members: seq<Member>, acc: Built): (r: Built)
    ensures |r.descs| + |r.errors| == |acc.descs| + |acc.errors| + |members|
    decreases |members|
  {
    if members == [] then acc
    else AddAll(s, members[1..], Record(acc, AddDescriptor(s, members[0])))
  }

  /** One member's outcome added to what was collected so far. */
  function Record(acc: Built, r: Result<Descriptor, Error>): Built {
    match r
    case Ok(d) => Built(acc.descs + [d], acc.errors)
    case Err(e) => Built(acc.descs, acc.errors + [e])
  }

  function SuccessOf(r: Result<Descriptor, Error>): seq<Descriptor> {
    match r case Ok(d) => [d] case Err(_) => []
  }

  function FailureOf(r: Result<Descriptor, Error>): seq<Error> {
    match r case Ok(_) => [] case Err(e) => [e]
  }

  /** The members that get a descriptor: every property, then every field
      that is not a backing field. */
  function Bindable(properties: seq<Member>, fields: seq<Member>): (r: seq<Member>)
    ensures |properties| <= |r| <= |properties| + |fields|
    ensures r[..|properties|] == properties
    ensures forall m :: m in r[|properties|..] <==> m in fields && !IsBackingField(m)
  {
    FilterMembers(fields);
    properties + Filter(fields)
  }

  function Filter(fields: seq<Member>): (r: seq<Member>)
    ensures |r| <= |fields|
  {
    if fields == [] then []
    else (if IsBackingField(fields[0]) then [] else [fields[0]]) + Filter(fields[1..])
  }

  /** The filter drops exactly the backing fields. */
  lemma {:induction false} FilterMembers(fields: seq<Member>)
    ensures forall m :: m in Filter(fields) <==> m in fields && !IsBackingField(m)
  {
    if fields != [] {
      FilterMembers(fields[1..]);
      assert fields == [fields[0]] + fields[1..];
    }
  }

  /** The filter keeps the declaration order: filtering two runs of fields
      is filtering each and concatenating, and a single field is kept
      unless it is a backing field. Together these pin the result down
      exactly, multiplicity included. */
  lemma {:induction false} FilterSplit(a: seq<Member>, b: seq<Member>)
    ensures Filter(a + b) == Filter(a) + Filter(b)
    decreases |a|
  {
    if a != [] {
      assert (a + b)[0] == a[0] && (a + b)[1..] == a[1..] + b;
      FilterSplit(a[1..], b);
    } else {
      assert a + b == b;
    }
  }

  lemma FilterOne(m: Member)
    ensures Filter([m]) == if IsBackingField(m) then [] else [m]
  {
  }

  /** No two members share a slot: each member is its own storage. */
  predicate MembersDistinct(members: seq<Member>) {
    forall i, j :: 0 <= i < j < |members| ==> members[i].slot != members[j].slot
  }

  lemma DropOne(a: seq<Member>, x: Member, b: seq<Member>)
    requires MembersDistinct((a + [x]) + b)
    ensures MembersDistinct(a + b)
  {
    var all := (a + [x]) + b;
    var ab := a + b;
    forall i, j | 0 <= i < j < |ab| ensures ab[i].slot != ab[j].slot {
      var i' := if i < |a| then i else i + 1;
      var j' := if j < |a| then j else j + 1;
      assert ab[i] == all[i'] && ab[j] == all[j'];
    }
  }

  lemma Regroup(a: seq<Member>, x: Member, b: seq<Member>)
    ensures a + ([x] + b) == (a + [x]) + b
  {
  }

  /** Dropping backing fields keeps members apart. */
  lemma {:induction false} FilterDistinct(pre: seq<Member>, fields: seq<Member>)
    requires MembersDistinct(pre + fields)
    ensures MembersDistinct(pre + Filter(fields))
    decreases |fields|
  {
    if fields != [] {
      var f := fields[0];
      var rest := fields[1..];
      assert pre + fields == (pre + [f]) + rest;
      if IsBackingField(f) {
        assert Filter(fields) == Filter(rest);
        DropOne(pre, f, rest);
        FilterDistinct(pre, rest);
      } else {
        assert Filter(fields) == [f] + Filter(rest);
        FilterDistinct(pre + [f], rest);
        Regroup(pre, f, Filter(rest));
      }
    }
  }

  /** `BuildDescriptors`. */
  function BuildDescriptors(s: Settings, properties: seq<Member>, fields: seq<Member>): (r: Built)
    ensures |r.descs| + |r.errors| == |Bindable(properties, fields)|
  {
    AddAll(s, Bindable(properties, fields), Built([], []))
  }

  /** The successful members, in order. */
  function Successes(s: Settings, members: seq<Member>): (r: seq<Descriptor>)
  {
    if members == [] then []
    else
      SuccessOf(AddDescriptor(s, members[0])) + Successes(s, members[1..])
  }

  /** The failures, in order. */
  function Failures(s: Settings, members: seq<Member>): (r: seq<Error>)
  {
    if members == [] then []
    else
      FailureOf(AddDescriptor(s, members[0])) + Failures(s, members[1..])
  }

  /** One failing member never hides the others: the descriptors are
      exactly those of the members whose `AddDescriptor` succeeds, in member
      order, and the errors those of the ones that fail. */
  lemma {:induction false} AddAllSplits(s: Settings, members: seq<Member>, acc: Built)
    ensures AddAll(s, members, acc) == Built(acc.descs + Successes(s, members), acc.errors + Failures(s, members))
    decreases |members|
  {
    if members != [] {
      var r := AddDescriptor(s, members[0]);
      AddAllSplits(s, members[1..], Record(acc, r));
      RecordSplits(acc, r, Successes(s, members[1..]), Failures(s, members[1..]));
    }
  }

  lemma RecordSplits(acc: Built, r: Result<Descriptor, Error>, descs: seq<Descriptor>, errors: seq<Error>)
    ensures Record(acc, r).descs + descs == acc.descs + (SuccessOf(r) + descs)
    ensures Record(acc, r).errors + errors == acc.errors + (FailureOf(r) + errors)
  {
  }

  /** Without required tags, or in a case-sensitive mode, nothing fails and
      every bindable member gets exactly one descriptor, in order. */
  lemma {:induction false} NoFailuresWhenNamed(s: Settings, members: seq<Member>)
    requires !s.requireAttributes || !IgnoreCase(s.caseMatching)
    ensures Failures(s, members) == []
    ensures |Successes(s, members)| == |members|
    ensures forall i :: 0 <= i < |members| ==> Successes(s, members)[i] == AddDescriptor(s, members[i]).value
    decreases |members|
  {
    if members != [] {
      NoFailuresWhenNamed(s, members[1..]);
      var d := AddDescriptor(s, members[0]).value;
      assert Successes(s, members) == [d] + Successes(s, members[1..]);
    }
  }

  // ---------------------------------------------------------------------
  // The sorted export

  /** `SortName`: required descriptors get the prefix "0", optional ones
      "1"; a null name adds nothing. */
  function SortName(d: Descriptor): string {
    (if d.required then "0" else "1") + Render(d.name)
  }

  predicate SortedByName(ds: seq<Descriptor>) {
    forall i, j :: 0 <= i < j < |ds| ==> LexLe(SortName(ds[i]), SortName(ds[j]))
  }

  /** `d` inserted before the first element it sorts at or before. */
  function Insert(d: Descriptor, ds: seq<Descriptor>): (r: seq<Descriptor>)
    ensures |r| == |ds| + 1
    ensures r[0] == d || (ds != [] && r[0] == ds[0])
    ensures multiset(r) == multiset(ds) + multiset{d}
  {
    if ds == [] then [d]
    else if LexLe(SortName(d), SortName(ds[0])) then [d] + ds
    else
      assert ds == [ds[0]] + ds[1..];
      [ds[0]] + Insert(d, ds[1..])
  }

  /** Insertion keeps a sorted list sorted. */
  lemma {:induction false} InsertSorted(d: Descriptor, ds: seq<Descriptor>)
    requires SortedByName(ds)
    ensures SortedByName(Insert(d, ds))
  {
    if ds == [] {
    } else if LexLe(SortName(d), SortName(ds[0])) {
      forall j | 0 <= j < |ds| ensures LexLe(SortName(d), SortName(ds[j])) {
        if j > 0 {
          LexLeTrans(SortName(d), SortName(ds[0]), SortName(ds[j]));
        }
      }
      SortedCons(d, ds);
      assert Insert(d, ds) == [d] + ds;
    } else {
      LexLeTotal(SortName(d), SortName(ds[0]));
      InsertSorted(d, ds[1..]);
      var rest := Insert(d, ds[1..]);
      assert SortedByName(ds[1..]) && LexLe(SortName(ds[0]), SortName(rest[0]));
      forall j | 0 <= j < |rest| ensures LexLe(SortName(ds[0]), SortName(rest[j])) {
        if j > 0 {
          LexLeTrans(SortName(ds[0]), SortName(rest[0]), SortName(rest[j]));
        }
      }
      SortedCons(ds[0], rest);
      assert Insert(d, ds) == [ds[0]] + rest;
    }
  }

  /** A sorted list stays sorted under a new head that sorts at or before
      each of its elements. */
  lemma SortedCons(x: Descriptor, rest: seq<Descriptor>)
    requires SortedByName(rest)
    requires forall j :: 0 <= j < |rest| ==> LexLe(SortName(x), SortName(rest[j]))
    ensures SortedByName([x] + rest)
  {
    var r := [x] + rest;
    forall i, j | 0 <= i < j < |r| ensures LexLe(SortName(r[i]), SortName(r[j])) {
      assert r[j] == rest[j - 1];
      if i > 0 {
        assert r[i] == rest[i - 1];
      }
    }
  }

  /** Insertion sort by `SortName`. */
  function Sort(ds: seq<Descriptor>): (r: seq<Descriptor>)
    ensures multiset(r) == multiset(ds)
  {
    if ds == [] then []
    else
      assert ds == [ds[0]] + ds[1..];
      Insert(ds[0], Sort(ds[1..]))
  }

  lemma {:induction false} SortSorted(ds: seq<Descriptor>)
    ensures SortedByName(Sort(ds))
  {
    if ds != [] {
      SortSorted(ds[1..]);
      InsertSorted(ds[0], Sort(ds[1..]));
    }
  }

  /** `GetArgumentDescriptors`: the descriptors, sorted; build errors are
      dropped. */
  function Export(s: Settings, properties: seq<Member>, fields: seq<Member>): (r: seq<Descriptor>)
    ensures SortedByName(r)
    ensures multiset(r) == multiset(BuildDescriptors(s, properties, fields).descs)
  {
    SortSorted(BuildDescriptors(s, properties, fields).descs);
    Sort(BuildDescriptors(s, properties, fields).descs)
  }

  /** In the export every required descriptor precedes every optional
      one, and within each group names appear in ordinal order. */
  lemma RequiredFirst(ds: seq<Descriptor>)
    requires SortedByName(ds)
    ensures forall i, j :: 0 <= i < j < |ds| && ds[j].required ==> ds[i].required
    ensures forall i, j :: 0 <= i < j < |ds| && ds[i].required == ds[j].required ==>
      LexLe(Render(ds[i].name), Render(ds[j].name))
  {
    forall i, j | 0 <= i < j < |ds|
      ensures ds[j].required ==> ds[i].required
      ensures ds[i].required == ds[j].required ==> LexLe(Render(ds[i].name), Render(ds[j].name))
    {
      var a := SortName(ds[i]);
      var b := SortName(ds[j]);
      assert LexLe(a, b);
      assert a[1..] == Render(ds[i].name) && b[1..] == Render(ds[j].name);
      if ds[i].required == ds[j].required {
        LexLeCons(if ds[i].required then '0' else '1', Render(ds[i].name), Render(ds[j].name));
      }
    }
  }
}

/** `ObjectCreator`: turning one command-line string into a value of a
    member's type, and writing it into a property or field. */
module Coercion {
  import opened Base
  import opened Text
  import opened Types

  /** Why a coercion failed. `Invoked` is a `TargetInvocationException`
      from a reflectively called constructor or `Parse` method, carrying the
      inner exception's message; `BadEnum` is the `ArgumentException` that
      `Enum.Parse` throws directly. */
  datatype Failure = Invoked(inner: string) | BadEnum(value: string)

  /** Index of the first enum name equal to `s` ignoring case, or -1. */
  function FindName(names: seq<string>, s: string, k: nat): (r: int)
    requires k <= |names|
    ensures r == -1 || k <= r < |names|
    ensures r != -1 ==> Lower(names[r]) == Lower(s)
    ensures forall j :: k <= j < |names| && (r == -1 || j < r) ==> Lower(names[j]) != Lower(s)
    decreases |names| - k
  {
    if k == |names| then -1
    else if Lower(names[k]) == Lower(s) then k
    else FindName(names, s, k + 1)
  }

  function FromInvocation(i: Invocation): (r: Result<Value, Failure>)
    ensures r.Ok? <==> i.Returned?
  {
    match i
    case Returned(v) => Ok(v)
    case Threw(m) => Err(Invoked(m))
  }

  /** `Enum.Parse(type, s, ignoreCase: true)` on symbolic names: the value
      is trimmed, a blank one is rejected, and the rest names the first
      member whose name equals it ignoring case. */
  function ParseEnum(t: TypeTag, s: string): (r: Result<Value, Failure>)
    requires t.shape.EnumShape?
    ensures r.Ok? <==>
      (Trim(s) != "" && exists k :: 0 <= k < |t.shape.names| && Lower(t.shape.names[k]) == Lower(Trim(s)))
    ensures r.Ok? ==>
      && r.value.EnumMember? && r.value.typeName == t.fullName
      && r.value.index < |t.shape.names|
      && Lower(t.shape.names[r.value.index]) == Lower(Trim(s))
      && forall j :: 0 <= j < r.value.index ==> Lower(t.shape.names[j]) != Lower(Trim(s))
    ensures r.Err? ==> r.error == BadEnum(s)
  {
    var text := Trim(s);
    var k := if text == "" then -1 else FindName(t.shape.names, text, 0);
    if k == -1 then Err(BadEnum(s)) else Ok(EnumMember(t.fullName, k))
  }

  /** `ObjectCreator.Create(type, s)`: an enum value is trimmed, a blank
      one is rejected, and the rest is matched by name ignoring case;
      otherwise a string constructor is preferred to a static `Parse`
      method, a string is returned unchanged, and a type with none of these
      yields null. Failures of the called code propagate. */
  function Create(lib: Library, t: TypeTag, s: string): (r: Result<Value, Failure>)
    ensures t.shape.EnumShape? ==>
      (r.Ok? <==> Trim(s) != "" &&
                  exists k :: 0 <= k < |t.shape.names| && Lower(t.shape.names[k]) == Lower(Trim(s)))
    ensures t.shape.EnumShape? && r.Ok? ==>
      && r.value.EnumMember? && r.value.typeName == t.fullName
      && r.value.index < |t.shape.names|
      && Lower(t.shape.names[r.value.index]) == Lower(Trim(s))
      && forall j :: 0 <= j < r.value.index ==> Lower(t.shape.names[j]) != Lower(Trim(s))
    ensures t.shape.EnumShape? && r.Err? ==> r.error == BadEnum(s)
    ensures t.shape.ClassShape? && t.shape.stringConstructor ==>
      r == FromInvocation(lib(t, StringConstructor, s))
    ensures t.shape.ClassShape? && !t.shape.stringConstructor && t.shape.staticParse ==>
      r == FromInvocation(lib(t, StaticParse, s))
    ensures t.shape.ClassShape? && !t.shape.stringConstructor && !t.shape.staticParse ==>
      r.Ok? && r.value == (if t.fullName == StringType.fullName then StrValue(s) else NullValue)
  {
    match t.shape
    case EnumShape(_) => ParseEnum(t, s)
    case ClassShape(ctor, parse) =>
      if ctor then FromInvocation(lib(t, StringConstructor, s))
      else if parse then FromInvocation(lib(t, StaticParse, s))
      else if t.fullName == StringType.fullName then Ok(StrValue(s))
      else Ok(NullValue)
  }

  /** Strings pass through unchanged, whatever the library does. */
  lemma StringIsIdentity(lib: Library, s: string)
    ensures Create(lib, StringType, s) == Ok(StrValue(s))
  {
  }

  /** Enum names round-trip in any letter case: when no two names of the
      enum differ only in case, every case variant of the `k`-th name,
      with or without surrounding whitespace, yields the `k`-th member. */
  lemma EnumNameRoundTrip(lib: Library, t: TypeTag, k: nat, s: string)
    requires t.shape.EnumShape? && k < |t.shape.names| && t.shape.names[k] != ""
    requires forall i, j :: 0 <= i < j < |t.shape.names| ==>
      Lower(t.shape.names[i]) != Lower(t.shape.names[j])
    requires Lower(Trim(s)) == Lower(t.shape.names[k])
    ensures Create(lib, t, s) == Ok(EnumMember(t.fullName, k))
  {
  }

  /** Whitespace around an enum value does not matter: a value parses as
      its trimmed text does. */
  lemma EnumIgnoresPadding(lib: Library, t: TypeTag, s: string)
    requires t.shape.EnumShape?
    ensures Create(lib, t, s).Ok? <==> Create(lib, t, Trim(s)).Ok?
    ensures Create(lib, t, s).Ok? ==> Create(lib, t, s) == Create(lib, t, Trim(s))
  {
    TrimIdentity(Trim(s));
  }

  /** A coercion fails exactly when an enum value is blank or names no
      member, or the invoked constructor or `Parse` method throws; it is
      never turned into a default value. */
  lemma FailuresPropagate(lib: Library, t: TypeTag, s: string)
    ensures Create(lib, t, s).Err? <==>
      || (t.shape.EnumShape? && (Trim(s) == "" ||
            forall k :: 0 <= k < |t.shape.names| ==> Lower(t.shape.names[k]) != Lower(Trim(s))))
      || (t.shape.ClassShape? && t.shape.stringConstructor && lib(t, StringConstructor, s).Threw?)
      || (t.shape.ClassShape? && !t.shape.stringConstructor && t.shape.staticParse && lib(t, StaticParse, s).Threw?)
  {
  }

  /** `ObjectCreator.Assign`: a property or field receives the coerced
      value and nothing else changes; any other kind of member is left
      alone. */
  function Assign(lib: Library, inst: seq<Value>, kind: MemberKind, slot: nat, t: TypeTag, s: string)
    : (r: Result<seq<Value>, Failure>)
    requires slot < |inst|
    ensures kind.OtherMember? ==> r == Ok(inst)
    ensures !kind.OtherMember? ==> (r.Ok? <==> Create(lib, t, s).Ok?)
    ensures !kind.OtherMember? && r.Err? ==> r.error == Create(lib, t, s).error
    ensures r.Ok? ==> |r.value| == |inst| && forall j :: 0 <= j < |inst| && j != slot ==> r.value[j] == inst[j]
    ensures r.Ok? && !kind.OtherMember? ==> r.value[slot] == Create(lib, t, s).value
  {
    match kind
    case Property | Field =>
      var v :- Create(lib, t, s);
      Ok(inst[slot := v])
    case OtherMember => Ok(inst)
  }
}

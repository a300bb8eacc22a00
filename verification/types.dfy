/** The reflection facts the binder needs about a member's type, and the
    values a coercion can produce. Reflection itself is replaced by these
    explicit descriptions. */
module Types {
  import opened Base

  /** What `ObjectCreator.Create` can find on a type. */
  datatype TypeShape =
    /** An enum with its symbolic names in the order `Enum.Parse` scans
        them: ascending unsigned value, as `Enum.GetNames` returns them.
        A member is identified by its position in this list. */
    | EnumShape(names: seq<string>)
    /** Any other type: does it have a `T(string)` constructor, a public
        static `Parse(string)` method? */
    | ClassShape(stringConstructor: bool, staticParse: bool)

  /** A member type. `listOf` is the element type `E` when the type
      implements `IList<E>`; `defaultConstructor` tells whether it has a
      parameterless constructor. `fullName` identifies the type. */
  datatype TypeTag = TypeTag(
    fullName: string,
    name: string,
    shape: TypeShape,
    listOf: Option<TypeTag>,
    defaultConstructor: bool)

  const BoolType := TypeTag("System.Boolean", "Boolean", ClassShape(false, true), None, true)
  const StringType := TypeTag("System.String", "String", ClassShape(false, false), None, false)

  /** `t == typeof(bool)`: types are identified by their full name. */
  predicate IsBool(t: TypeTag) {
    t.fullName == BoolType.fullName
  }

  /** `SetterFactory.GetListType(t) != null`, which is also how the builder
      computes `IsList`. */
  predicate IsList(t: TypeTag) {
    t.listOf.Some?
  }

  /** The type a single command-line value is coerced to: the element type
      of a list-shaped member, the member type otherwise. */
  function CoercionTarget(t: TypeTag): (e: TypeTag)
    ensures IsList(t) ==> e == t.listOf.value
    ensures !IsList(t) ==> e == t
  {
    match t.listOf
    case Some(e) => e
    case None => t
  }

  /** A value stored in a member of the configuration object. */
  datatype Value =
    | NullValue
    | StrValue(s: string)
    | EnumMember(typeName: string, index: nat)
    /** A value produced by library or application code. */
    | Made(typeName: string, payload: string)
    | ListValue(items: seq<Value>)

  /** The kinds of `MemberInfo` the model distinguishes. */
  datatype MemberKind = Property | Field | OtherMember

  /** The two reflective entry points coercion may call. */
  datatype Entry = StringConstructor | StaticParse

  /** What an invoked constructor or `Parse` method did: returned a value
      or threw an exception with the given message. */
  datatype Invocation = Returned(v: Value) | Threw(message: string)

  /** Library and application constructors and `Parse` methods (`int.Parse`,
      `DateTime.Parse`, user classes) are not modelled: coercion is
      parameterised by what they do. */
  type Library = (TypeTag, Entry, string) -> Invocation
}

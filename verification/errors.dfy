/** The failures the pipeline collects: the two shapes of
    `CommandLineException` and the runtime exceptions that reach the error
    list unwrapped. */
module Errors {
  import opened Text
  import opened Types

  const MessageHead := "Exception parsing comand line parameter: name = "

  datatype Error =
    /** `CommandLineException(name, value, reason)`: no parameter type. */
    | ReasonError(parameterName: NStr, parameterValue: NStr, reason: string)
    /** `CommandLineException(name, value, type, inner)`; `inner` is the
        message of the inner exception, null when there is none. */
    | TypedError(parameterName: NStr, parameterValue: NStr, parameterType: TypeTag, inner: NStr)
    /** `IndexOutOfRangeException` from indexing past the end of an array. */
    | IndexOutOfRange
    /** `ArgumentOutOfRangeException` from indexing past the end of a list. */
    | ArgumentOutOfRange
    /** `ArgumentException` thrown by a library call, naming the offending
        argument value. */
    | ArgumentError(argument: NStr)
    /** `NullReferenceException` from lower-casing a null descriptor name. */
    | NullReference

  predicate IsCommandLineException(e: Error) {
    e.ReasonError? || e.TypedError?
  }

  /** `CommandLineException.ParameterType`: null for the reason variant. */
  function ParameterType(e: Error): (t: Base.Option<TypeTag>)
    requires IsCommandLineException(e)
    ensures t.Some? <==> e.TypedError?
  {
    if e.TypedError? then Base.Some(e.parameterType) else Base.None
  }

  /** The part both message shapes share. */
  function Head(name: NStr, value: NStr): string {
    MessageHead + Render(name) + ", value = " + Render(value)
  }

  /** The exception's `Message`. */
  function Message(e: Error): (m: string)
    requires IsCommandLineException(e)
  {
    match e
    case ReasonError(n, v, r) => Head(n, v) + (", reason = " + r)
    case TypedError(n, v, t, inner) =>
      Head(n, v) + (", type = " + t.name + " exception = " + Render(inner))
  }

  lemma Concat(a: string, b: string)
    ensures (a + b)[..|a|] == a && (a + b)[|a|..] == b
  {
  }

  /** Both message shapes start with the shared head, the reason variant
      ends with its reason, and a typed error without an inner exception
      ends with an empty exception text. */
  lemma MessageShape(e: Error)
    requires IsCommandLineException(e)
    ensures var h := Head(e.parameterName, e.parameterValue);
      |h| <= |Message(e)| && Message(e)[..|h|] == h
    ensures e.ReasonError? ==>
      |e.reason| <= |Message(e)| && Message(e)[|Message(e)| - |e.reason|..] == e.reason
    ensures e.TypedError? && e.inner.Null? ==>
      |" exception = "| <= |Message(e)| && Message(e)[|Message(e)| - |" exception = "|..] == " exception = "
  {
    var h := Head(e.parameterName, e.parameterValue);
    match e
    case ReasonError(n, v, r) =>
      Concat(h, ", reason = " + r);
      Concat(", reason = ", r);
    case TypedError(n, v, t, inner) =>
      var tail := ", type = " + t.name + " exception = " + Render(inner);
      Concat(h, tail);
      if inner.Null? {
        assert tail == ", type = " + t.name + " exception = ";
        Concat(", type = " + t.name, " exception = ");
      }
  }
}

/**
 The in-memory values the filter receives from its caller, the outcome of one
 regular-expression search, and the error channel through which a raised
 exception propagates.
 */
module PyValues {

  /** A value as the filter sees it. A dict is kept as its item sequence, in
      iteration order, so that "the first key equal to the name decides" is
      explicit. `Other` stands for every other scalar (numbers, booleans, None). */
  datatype Value =
    | Dict(items: seq<(string, Value)>)
    | List(elems: seq<Value>)
    | Str(s: string)
    | Other

  /** What a call of the regular-expression library may raise. */
  datatype Error =
    | PatternError  // the pattern does not compile
    | TypeMismatch  // the pattern or the subject is not a string

  /** The outcome of one `re.search(pattern, subject)`: a match object (truthy),
      `None` (falsy), or a raised exception. */
  datatype Probe = Hit | Miss | Raise(err: Error)

  /** The library search itself, left uninterpreted: every lemma holds for any
      such function. Arguments: pattern, subject. */
  type Search = (Value, Value) -> Probe

  /** A computation that either returns normally or propagates an exception. */
  datatype Result<T> = Ok(value: T) | Err(error: Error)
}

/** Failure-compatible wrappers shared by every module of the model. */
module Base {

  /** A value that may be absent: a nullable column, an optional query
      parameter, a JavaScript `undefined`. */
  datatype Option<+T> = None | Some(value: T)

  /** The outcome of an operation that can fail with an error value. */
  datatype Result<+R, +E> = Success(value: R) | Failure(error: E)

  /** JavaScript truthiness of an optional string: null, undefined and the
      empty string are falsy. */
  predicate TruthyText(s: Option<string>) {
    s.Some? && s.value != ""
  }

  /** JavaScript truthiness of an optional number: null, undefined and 0 are
      falsy. */
  predicate TruthyNumber(n: Option<int>) {
    n.Some? && n.value != 0
  }
}

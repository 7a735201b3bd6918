/** Failure-compatible results and optional values used by every module of the model. */
module Wrappers {

  /** A nullable column or a Python value that may be `None`. */
  datatype Option<+T> = None | Some(value: T)

  /** The outcome of a call: a value, or the error it raises. */
  datatype Result<+T, +E> = Success(value: T) | Failure(error: E)

  /** A call's effect on the committed tables, and the error it raised, if any. */
  predicate HasOutcome<S(==), E(==)>(before: S, expected: Result<S, E>, after: S, error: Option<E>) {
    match expected
    case Success(t) => after == t && error.None?
    case Failure(e) => after == before && error == Some(e)
  }
}

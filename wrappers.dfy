/** Option and Result values for absent map entries, `null` returns and thrown errors. */
module Wrappers {

  /** A value that may be missing: `undefined` from `Map.get`, `null` from a return. */
  datatype Option<+T> = None | Some(value: T)

  /** The outcome of an operation that may throw instead of returning. */
  datatype Result<+R, +E> = Success(value: R) | Failure(error: E)
}

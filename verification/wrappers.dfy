/** Option and Result, the failure-carrying datatypes the rest of the model uses. */
module Wrappers {

  /** A value that may be absent: JavaScript's `null`/`undefined` next to a value. */
  datatype Option<+T> = None | Some(value: T)

  /** The outcome of an operation that may fail with an error value. */
  datatype Result<+R, +E> = Success(value: R) | Failure(error: E)
}

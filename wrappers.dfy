/** Option and Result, used for nullable columns and for operations that can fail. */
module Wrappers {

  /** A value that may be absent: SQL NULL, a JavaScript `null` or `undefined`. */
  datatype Option<+T> = None | Some(value: T)

  /** The outcome of an operation that either succeeds with a value or fails with an error. */
  datatype Result<+T, +E> = Success(value: T) | Failure(error: E)
}

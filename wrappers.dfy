/** Optional values and results with an error value, shared by the other modules. */
module Wrappers {

  /** A value that may be absent: JavaScript's `undefined`/`null`, or NaN for a number. */
  datatype Option<+T> = None | Some(value: T)

  /** The outcome of an operation that can fail with an error value instead of throwing. */
  datatype Result<+R, +E> = Success(value: R) | Failure(error: E)
}

/** Optional values and results with an error, shared by the other modules. */
module Wrappers {

  /** A value that may be absent: JavaScript's `undefined` argument or result. */
  datatype Option<+T> = None | Some(value: T)

  /** The outcome of an operation that either computes a value or throws. */
  datatype Result<+R, +E> = Success(value: R) | Failure(error: E)
}

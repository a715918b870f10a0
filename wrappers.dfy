/** Optional values and results with an error, as used across the model. */
module Wrappers {

  /** A JavaScript value that may be `null` or `undefined`. */
  datatype Option<+T> = None | Some(value: T)

  /** The outcome of an operation that may throw (or reject) with an error. */
  datatype Result<+T, +E> = Success(value: T) | Failure(error: E)
}

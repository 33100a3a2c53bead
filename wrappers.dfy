/** Optional values and results with an error, as the service returns them. */
module Wrappers {

  /** A value that may be absent (Python's `Optional`, `None` for absent). */
  datatype Option<+T> = None | Some(value: T)

  /** The outcome of an operation that may fail with an error value. */
  datatype Result<+T, +E> = Success(value: T) | Failure(error: E)
}

/** Optional values and results with an error, shared by every module. */
module Wrappers {

  /** A value that may be missing (Python's `None`, pandas' NaN). */
  datatype Option<+T> = None | Some(value: T)

  /** The outcome of a step that either succeeds or raises. */
  datatype Result<+T, +E> = Success(value: T) | Failure(error: E)
}

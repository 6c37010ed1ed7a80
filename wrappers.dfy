/** Optional values and error-or-value results. */
module Wrappers {

  /** A cell that may be missing (pandas NaN), or an optional argument. */
  datatype Option<+T> = None | Some(value: T)

  /** The outcome of an operation that may raise. */
  datatype Result<+R, +E> = Success(value: R) | Failure(error: E)
}

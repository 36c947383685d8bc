/** Optional values and fallible results. */
module Wrappers {

  /** A value that may be absent; used for the optional `take` of a builder. */
  datatype Option<+T> = None | Some(value: T)

  /** The outcome of an operation that may reject its arguments. */
  datatype Result<+R, +E> = Success(value: R) | Failure(error: E)
}

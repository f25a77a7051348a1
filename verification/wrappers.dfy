/** Optional values and fallible results, shared by every module of the model. */
module Wrappers {

  /** A value that may be absent: a missing query parameter, NaN, a cache miss. */
  datatype Option<+T> = None | Some(value: T)

  /** The outcome of a store call that may be rejected. */
  datatype Result<+R, +E> = Success(value: R) | Failure(error: E)
}

/** Optional values and results with an error branch. */
module Wrappers {

  datatype Option<+T> = None | Some(value: T)

  /** Success carries the value; Failure carries the reason the run stops. */
  datatype Result<+T, +E> = Success(value: T) | Failure(error: E)
}

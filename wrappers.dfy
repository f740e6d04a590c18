/** Optional values and error results. */
module Wrappers {

  datatype Option<+T> = None | Some(value: T)

  /** Either a value or the error that the source would throw instead. */
  datatype Result<+T, +E> = Success(value: T) | Failure(error: E)
}

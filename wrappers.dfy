/** Optional values, for lookups and operations that may have nothing to
    return, and results, for operations that either return a value or
    throw. */
module Wrappers {
  datatype Option<T> = None | Some(value: T)

  datatype Result<T, E> = Success(value: T) | Failure(error: E)
}

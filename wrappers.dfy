/** Optional values and error results, used where the Go code returns an
    error value or where input can run out. */
module Wrappers {

  datatype Option<+T> = None | Some(value: T)

  datatype Result<+T, +E> = Success(value: T) | Failure(error: E)
}

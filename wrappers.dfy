/** Optional values and fallible results, used wherever the Go code returns
    a nil pointer or a non-nil `error`. */
module Wrappers {

  datatype Option<+T> = None | Some(value: T)

  datatype Result<+T, +E> = Success(value: T) | Failure(error: E)
}

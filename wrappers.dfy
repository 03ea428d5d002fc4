/** Optional values and results carrying an error, used where the Go code
    returns `error` or a value together with an `error`. */
module Wrappers {

  datatype Option<+T> = None | Some(value: T)

  datatype Result<+R, +E> = Success(value: R) | Failure(error: E)
}

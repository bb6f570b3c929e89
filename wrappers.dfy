/** Optional values and results with an error, used wherever the source has a
    missing value (`None`, `undefined`) or raises an error. */
module Wrappers {

  datatype Option<+T> = None | Some(value: T)

  datatype Result<+T, +E> = Success(value: T) | Failure(error: E)
}

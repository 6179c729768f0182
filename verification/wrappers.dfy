/** Optional values and success/failure results, used for Swift's optionals and `Result<T, Error>`. */
module Wrappers {

  datatype Option<+T> = None | Some(value: T)

  datatype Result<+T, +E> = Success(value: T) | Failure(error: E)
}

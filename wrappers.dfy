/** Optional values and results with an error, as the page's `find` and its
    guard-and-return validation produce them. */
module Wrappers {

  datatype Option<+T> = None | Some(value: T)

  datatype Result<+R, +E> = Success(value: R) | Failure(error: E)
}

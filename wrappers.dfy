/** Optional values and success/failure results, used where the source either
    has a NULL column, a conversion that may raise, or an operation that warns
    the user and returns early. */
module Wrappers {

  datatype Option<+T> = None | Some(value: T)

  datatype Result<+R, +E> = Success(value: R) | Failure(error: E)
}

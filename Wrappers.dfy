/** Optional values and error-carrying results, used in place of Python's `None`
    and of raised `HTTPException`s. */
module Wrappers {

  datatype Option<+T> = None | Some(value: T)

  datatype Result<+R, +E> = Success(value: R) | Failure(error: E)
}

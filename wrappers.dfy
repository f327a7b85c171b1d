/** Optional values and failure-carrying results, used for the nullable
    fields of a request and for the exceptions the service throws. */
module Wrappers {

  datatype Option<+T> = None | Some(value: T)

  datatype Result<+R, +E> = Success(value: R) | Failure(error: E)
}

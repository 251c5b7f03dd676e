/** Option and Result, used for the absent value of a lookup and for the
    error paths of the optimizer. */
module Wrappers {

  datatype Option<+T> = None | Some(value: T)

  datatype Result<+R, +E> = Success(value: R) | Failure(error: E)
}

/** Option and Result, used for the fields the JavaScript code treats as
    possibly absent and for the exception thrown by the manifest builder. */
module Wrappers {

  datatype Option<+T> = None | Some(value: T)

  datatype Result<+R, +E> = Success(value: R) | Failure(error: E)
}

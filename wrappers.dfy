/** Option and Result, used for the controller's "no drag in progress" state
    and for the error kinds that PDF generation reports. */
module Wrappers {

  datatype Option<+T> = None | Some(value: T)

  datatype Result<+R, +E> = Success(value: R) | Failure(error: E)
}

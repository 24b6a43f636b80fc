/** Option and Result, the two failure-carrying shapes used throughout the model. */
module Wrappers {

  datatype Option<+T> = None | Some(value: T)

  /** `Failure` carries the message of the error the JavaScript code throws. */
  datatype Result<+R, +E> = Success(value: R) | Failure(error: E)
}

/** Option and Result, used for NaN table cells and for the error raised on an unknown node. */
module Wrappers {

  datatype Option<+T> = None | Some(value: T)

  datatype Result<+R, +E> = Success(value: R) | Failure(error: E)
}

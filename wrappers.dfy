/** Option and Result values used for the outcomes that the program reports
    by printing a message and returning early. */
module Wrappers {

  datatype Option<+T> = None | Some(value: T)

  datatype Result<+R, +E> = Success(value: R) | Failure(error: E)
}

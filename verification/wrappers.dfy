/** Option and Result datatypes used for the client's absent values and
    for the exceptions that abort an operation. */
module Wrappers {

  datatype Option<+T> = None | Some(value: T)

  datatype Result<+R, +E> = Success(value: R) | Failure(error: E)
}

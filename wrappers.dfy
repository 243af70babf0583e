/** Option and Result, the two failure-carrying datatypes the model uses.
    A Swift optional becomes an Option; a builder call that can stop the
    process with fatalError returns a Result whose Failure names the fault. */
module Wrappers {

  datatype Option<+T> = None | Some(value: T)

  datatype Result<+T, +E> = Success(value: T) | Failure(error: E)
}

/** Option and Result, the two failure-carrying types the model uses for
    nullable columns and for the exceptions the source raises. */
module Wrappers {

  datatype Option<+T> = None | Some(value: T)

  datatype Result<+T, +E> = Success(value: T) | Failure(error: E)
}

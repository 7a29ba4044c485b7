/** Option and Result, the two failure-carrying datatypes the model uses. */
module Wrappers {

  datatype Option<+T> = None | Some(value: T)

  /** The success value of an operation, or the reason it failed. */
  datatype Result<+T, +E> = Ok(value: T) | Err(error: E)
}

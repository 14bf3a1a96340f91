/** Failure-carrying datatypes shared by the models. */
module Wrappers {

  /** A value that may be absent: std::optional, or a null handle. */
  datatype Option<+T> = None | Some(value: T)

  /** The outcome of an operation that can throw: the value it returns or the error it raises. */
  datatype Result<+T, +E> = Ok(value: T) | Err(error: E)
}

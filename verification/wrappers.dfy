/** Option and Result datatypes used throughout the model. */
module Wrappers {

  /** A value that may be absent; stands for Python's `None`. */
  datatype Option<+T> = None | Some(value: T)

  /** The outcome of an operation that either succeeds or raises. */
  datatype Result<+T, +E> = Ok(value: T) | Err(error: E)
}

/** Failure-carrying datatypes shared by the other modules. */
module Wrappers {

  datatype Option<+T> = None | Some(value: T)

  /** The outcome of an operation that may raise: `Err` carries the message. */
  datatype Result<+T, +E> = Ok(value: T) | Err(error: E)
}

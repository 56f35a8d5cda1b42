/** Failure-carrying values shared by the whole model. */
module Wrappers {

  /** A value that may be absent: SQL NULL, `None`, a failed parse. */
  datatype Option<+T> = None | Some(value: T)

  /** The outcome of an operation that the application can reject with a message. */
  datatype Result<+T, +E> = Ok(value: T) | Err(error: E)
}

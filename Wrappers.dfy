/** Failure-carrying result types shared by the codec and the responder. */
module Wrappers {

  /** A value, or nothing (Python's struct module raising `struct.error`). */
  datatype Option<+T> = None | Some(value: T)

  /** A value, or the exception that a call raised instead. */
  datatype Result<+T, +E> = Ok(value: T) | Err(error: E)
}

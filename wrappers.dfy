/** Failure-carrying values shared by the modules of the dimmer model. */
module Wrappers {

  /** A value that may be absent (Python's `None`). */
  datatype Option<+T> = None | Some(value: T)

  /** A value or the exception an operation raises instead. */
  datatype Result<+T, +E> = Ok(value: T) | Err(error: E)
}

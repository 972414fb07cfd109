/** Failure-carrying wrappers shared by the other modules. */
module Wrappers {

  /** A value that may be absent (Python's `None`, a missing index). */
  datatype Option<+T> = None | Some(value: T)

  /** Either a value or an error (a Python exception turned into data). */
  datatype Result<+T, +E> = Ok(value: T) | Err(error: E)
}

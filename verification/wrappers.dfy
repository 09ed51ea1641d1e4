/** Failure-carrying datatypes used for the tracker's `None` returns and raised errors. */
module Wrappers {

  /** A value that may be absent (Python's `None`). */
  datatype Option<+T> = None | Some(value: T)

  /** Either a value or the error that was raised instead of returning it. */
  datatype Result<+T, +E> = Ok(value: T) | Err(error: E)
}

/** `Option` and `Result`, shared by the model. */
module Wrappers {

  /** A value that may be absent (lxml's `None` for a missing text, tail or parent). */
  datatype Option<+T> = None | Some(value: T)

  /** The outcome of an operation that either returns a value or raises. */
  datatype Result<+T, +E> = Ok(value: T) | Err(error: E)
}

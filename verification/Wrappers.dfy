/** The two failure-carrying types used throughout: an optional value, and a value or a raised error. */
module Wrappers {
  datatype Option<+T> = None | Some(value: T)

  datatype Result<+T, +E> = Ok(value: T) | Err(error: E)
}

/** An optional value and a value-or-error outcome shared by the model. */
module Wrappers {

  /** A value that may be missing. */
  datatype Option<+T> = None | Some(value: T)

  /** The outcome of an operation that may raise: its value, or the error raised. */
  datatype Result<+R, +E> = Ok(value: R) | Err(error: E)
}

/** Failure-carrying result types used in place of the exceptions raised by the maze code. */
module Wrappers {

  datatype Option<+T> = None | Some(value: T)

  /** A value, or the error that replaced it. */
  datatype Result<+T, +E> = Ok(value: T) | Err(error: E)

  /** Success without a value, or the error that was raised. */
  datatype Outcome<+E> = Pass | Fail(error: E)
}

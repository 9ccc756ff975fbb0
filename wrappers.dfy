/** The Option and Result types shared by the model. */
module Wrappers {

  /** A value that may be absent, such as the match of a regular expression. */
  datatype Option<+T> = None | Some(value: T)

  /** The outcome of an operation that may throw: its value, or the error it raised. */
  datatype Result<+R, +E> = Success(value: R) | Failure(error: E)
}

/** Failure-compatible result types shared by the model. */
module Wrappers {

  /** A value that may be absent, such as the signed-in viewer. */
  datatype Option<+T> = None | Some(value: T)

  /** The outcome of an operation that can raise an error in the program. */
  datatype Result<+T, +E> = Ok(value: T) | Err(error: E)
}

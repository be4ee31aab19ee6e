/** Option and Result values used for the error paths of the model. */
module Wrappers {

  /** A value that may be absent: Rust's `Option`, Python's `None`. */
  datatype Option<+T> = None | Some(value: T)

  /** A value or an error: Rust's `Result`, and the model of a panic or an `exit(1)`. */
  datatype Result<+T, +E> = Success(value: T) | Failure(error: E)
}

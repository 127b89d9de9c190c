/** Failure-carrying result types shared by every component of the model. */
module Wrappers {

  /** An optional value, as Rust's `Option`. */
  datatype Option<+T> = None | Some(value: T)

  /** A value or an error, as Rust's `Result`. */
  datatype Result<+R, +E> = Success(value: R) | Failure(error: E)
}

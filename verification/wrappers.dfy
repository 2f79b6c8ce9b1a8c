/** Wrappers used across the model: `Option` for the JavaScript
    `undefined`/`null` cases and `Result` for an operation that can throw. */
module Wrappers {

  /** A value that may be absent (`undefined` in the code). */
  datatype Option<+T> = None | Some(value: T)

  /** The outcome of an operation that either produces a value or throws. */
  datatype Result<+R, +E> = Success(value: R) | Failure(error: E)
}

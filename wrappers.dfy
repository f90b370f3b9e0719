/** Option and Outcome values used throughout the model, in place of Rust's
    `Option<T>` and `Result<(), E>`. */
module Wrappers {

  datatype Option<+T> = None | Some(value: T)

  /** The outcome of an operation that either succeeds with no value or fails
      with an error, as Rust's `Result<(), E>`. */
  datatype Outcome<+E> = Pass | Fail(error: E)
}

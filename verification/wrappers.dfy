/** Failure-compatible return types shared by the model. */
module Wrappers {

  /** An optional value; `None` stands for Rust's `None`. */
  datatype Option<+T> = None | Some(value: T)

  /** The outcome of an operation that can fail with an error value. */
  datatype Result<+T, +E> = Ok(value: T) | Err(error: E)
}

/** Option and Result, the shapes in which the Rust code reports optional values and errors. */
module Wrappers {

  /** `Option<T>`: a value that may be absent (Rust's `Option`). */
  datatype Option<+T> = None | Some(value: T)

  /** `Result<T, E>`: success with a value or failure with an error (Rust's `Result`). */
  datatype Result<+T, +E> = Ok(value: T) | Err(error: E)
}

/** Option and Result values, standing for Rust's `Option` and `Result`. */
module Wrappers {

  /** An optional value: `None`, or `Some(value)`. */
  datatype Option<+T> = None | Some(value: T)

  /** The outcome of an operation that may fail: `Ok(value)` or `Err(error)`. */
  datatype Result<+T, +E> = Ok(value: T) | Err(error: E)
}

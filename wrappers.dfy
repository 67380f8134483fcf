/** Option and Result, the two failure-carrying types used across the model. */
module Wrappers {

  /** `std::optional<T>` / Rust `Option<T>`. */
  datatype Option<+T> = None | Some(value: T)

  /** An error return: `Ok` carries the value, `Err` the error code. */
  datatype Result<+T, +E> = Ok(value: T) | Err(error: E)
}

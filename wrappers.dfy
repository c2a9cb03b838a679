/** Option and Result values for the error paths of the modelled functions. */
module Wrappers {

  datatype Option<+T> = None | Some(value: T)

  /** A Rust `Result`: either a value or an error. */
  datatype Result<+T, +E> = Ok(value: T) | Err(error: E)
}

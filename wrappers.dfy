/** Option and Result, the model's counterparts of Rust's `Option` and of a panic or error return. */
module Wrappers {

  datatype Option<+T> = None | Some(value: T)

  datatype Result<+T, +E> = Ok(value: T) | Err(error: E)
}

/** Rust's standard `Option<T>` and `Result<T, E>`, the two sum types the
    modelled code converts to and from. */
module Wrappers {

  datatype Option<+T> = None | Some(value: T)

  datatype Result<+T, +E> = Ok(value: T) | Err(error: E)
}

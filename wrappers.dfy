/** Failure-carrying wrappers used by every module: `Option` for Rust's
    `Option<T>` and `Result` for `Result<T, E>`. */
module Wrappers {

  datatype Option<+T> = None | Some(value: T)

  datatype Result<+T, +E> = Ok(value: T) | Err(error: E)
}

/** Option and Result, the two failure-carrying shapes the model needs:
    `Option` stands for Rust's `Option`, `Result` for a `Result` whose error
    side is a small enumeration of what went wrong. */
module Wrappers {

  datatype Option<+T> = None | Some(value: T)

  datatype Result<+T, +E> = Ok(value: T) | Err(error: E)
}

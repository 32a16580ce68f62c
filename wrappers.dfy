/** Failure-compatible wrappers used throughout the model: Swift's optionals
    become `Option`, and `throws` becomes a `Result` carrying the thrown error. */
module Wrappers {

  datatype Option<+T> = None | Some(value: T)

  datatype Result<+T, +E> = Ok(value: T) | Err(error: E)
}

/** Failure-carrying results, used wherever the Rust code returns an
    `Option` or a `Result`. */
module Wrappers {

  datatype Option<+T> = None | Some(value: T)

  datatype Result<+T, +E> = Ok(value: T) | Err(error: E)
}

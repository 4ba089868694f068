/** Failure-carrying values used throughout the model: `Option` for "may be
    absent" and `Result` for the operations of the client that raise. */
module Wrappers {

  datatype Option<+T> = None | Some(value: T)

  datatype Result<+T, +E> = Ok(value: T) | Err(error: E)
}

/** Option and Result values standing for Rust's `Option` and `anyhow::Result`. */
module Wrappers {

  datatype Option<+T> = None | Some(value: T)

  /** An error carries the message the tool would print. */
  datatype Result<+T> = Ok(value: T) | Err(error: string)
}

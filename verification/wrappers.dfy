/** The optional and fallible values the model uses where Rust returns `Option` or `Result`. */
module Wrappers {

  datatype Option<+T> = None | Some(value: T)

  /** Rust's `Result`, for the calls whose error the model keeps. */
  datatype Result<+T, +E> = Ok(value: T) | Err(error: E)
}

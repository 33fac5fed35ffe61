/** Failure-compatible wrappers shared by the puzzle solver and the game. */
module Wrappers {

  /** An optional value: Rust's `Option`. */
  datatype Option<+T> = None | Some(value: T)

  /** A value or an error message: Rust's `Result`. */
  datatype Result<+T, +E> = Ok(value: T) | Err(error: E)
}

/** Failure-compatible wrappers shared by the store and the shell. */
module Results {

  /** Rust's `Option`: a selection the user may cancel. */
  datatype Option<+T> = None | Some(value: T)

  /** Rust's `Result`: a value or the error that replaced it. */
  datatype Result<+T, +E> = Ok(value: T) | Err(error: E)
}

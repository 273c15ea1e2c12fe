/** Option and Result types used by the model of the windows crate's
    `Result<T>` and of the optional answers of OS queries. */
module Wrappers {

  /** An answer that may be missing, e.g. an OS query that failed. */
  datatype Option<+T> = None | Some(value: T) {
    /** The value, or `default` when there is none (Rust's `unwrap_or`). */
    function GetOr(default: T): T {
      match this
      case Some(v) => v
      case None => default
    }
  }

  /** `Ok(value)` or `Err(error)`, as Rust's `Result`. */
  datatype Result<+T, +E> = Ok(value: T) | Err(error: E)
}

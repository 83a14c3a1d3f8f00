/** Optional values and results shared by every module of the model:
    `Option` for Rust's `Option`, `Result` for Rust's `Result`. */
module Wrappers {

  datatype Option<+T> = None | Some(value: T) {

    /** The value held by `Some`, or `default` for `None` (Rust's `unwrap_or`). */
    function GetOr(default: T): T {
      match this
      case Some(v) => v
      case None => default
    }
  }

  datatype Result<+R, +E> = Success(value: R) | Failure(error: E)

  /** Rust's `Result<(), E>`: success carries no value. */
  datatype Outcome<+E> = Pass | Fail(error: E)
}

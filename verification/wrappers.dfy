/** Failure-carrying values used throughout the model: `Option` stands for a
    JavaScript value that may be `null`/`undefined`, `Result` for a computation
    that may throw. */
module Wrappers {

  datatype Option<+T> = None | Some(value: T) {

    /** The value, or `default` when absent (JavaScript's `x ?? default`). */
    function GetOr(default: T): T {
      match this
      case Some(v) => v
      case None => default
    }
  }

  /** `Failure(message)` is a thrown `Error` carrying `message`. */
  datatype Result<+T, +E> = Success(value: T) | Failure(error: E)
}

/** Small wrappers used across the model: an optional value (Python's
    `Optional[...]`, a field that may be absent), a result that is either a
    value or the error a Python `raise` would carry, and the pass/fail
    outcome of a check. */
module Wrappers {

  datatype Option<+T> = None | Some(value: T) {

    /** The value, or `default` when absent (Python's `x or default` on an optional). */
    function GetOr(default: T): T {
      match this
      case Some(v) => v
      case None => default
    }
  }

  datatype Result<+R, +E> = Success(value: R) | Failure(error: E)

  /** A check that either passes or fails with an error value. */
  datatype Outcome<+E> = Pass | Fail(error: E)
}

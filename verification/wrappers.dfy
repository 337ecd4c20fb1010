/** Failure-compatible wrappers used across the model: an optional value and a
    value-or-error result (the source's `None` returns and raised exceptions). */
module Wrappers {

  datatype Option<+T> = None | Some(value: T) {
    function GetOr(default: T): T {
      match this
      case Some(v) => v
      case None => default
    }
  }

  datatype Result<+R, +E> = Success(value: R) | Failure(error: E)
}

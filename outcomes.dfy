/** Optional values and results used throughout the model. */
module Outcomes {

  /** A value that may be absent: JavaScript's `null` / `undefined`, or SQL `NULL`. */
  datatype Option<+T> = None | Some(value: T) {
    function GetOr(default: T): T {
      match this
      case Some(v) => v
      case None => default
    }
  }

  /** The outcome of an operation that either produces a value or throws. */
  datatype Result<+T, +E> = Ok(value: T) | Err(error: E)
}

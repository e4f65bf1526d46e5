/** Optional values and results with an error, shared by every module of the model. */
module Wrappers {

  /** A value that may be absent: Python's `None`, SQL's NULL. */
  datatype Option<+T> = None | Some(value: T) {
    /** Returns the value held in Some, or `default` for None. */
    function GetOr(default: T): T {
      match this
      case Some(v) => v
      case None => default
    }
  }

  /** The outcome of an operation that can raise: a value, or the error raised. */
  datatype Result<+R, +E> = Success(value: R) | Failure(error: E)

}

/** Optional values and results, as the handlers use `null`/`undefined` and exceptions. */
module Wrappers {

  datatype Option<+T> = None | Some(value: T) {
    /** `x ?? d` for a value that may be absent. */
    function GetOr(default: T): T {
      match this
      case Some(v) => v
      case None => default
    }
  }

  datatype Result<+R, +E> = Success(value: R) | Failure(error: E)
}

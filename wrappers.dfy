/** Optional values (a pandas NaN is `None`) and results with an error path. */
module Wrappers {

  datatype Option<+T> = None | Some(value: T) {
    /** The value, or `default` when missing (pandas `fillna(default)` on one cell). */
    function GetOr(default: T): T {
      match this
      case Some(v) => v
      case None => default
    }
  }

  datatype Result<+R, +E> = Success(value: R) | Failure(error: E)
}

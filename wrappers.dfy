/** Optional values (a Python value that may be None or a dictionary key that
    may be absent) and results (a value or the exception that would be raised). */
module Wrappers {

  datatype Option<+T> = None | Some(value: T) {

    /** Python's `d.get(key, default)`: the value when present, else the default */
    function GetOr(default: T): T {
      match this
      case Some(v) => v
      case None => default
    }
  }

  datatype Result<+T, +E> = Success(value: T) | Failure(error: E)
}

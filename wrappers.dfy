/** Optional values and error results, standing in for Python's None and
    for raised exceptions. */
module Wrappers {

  /** A value that may be missing (Python's None or an absent attribute). */
  datatype Option<T> = None | Some(value: T) {
    /** The value, or `default` when there is none. */
    function GetOr(default: T): T {
      match this
      case Some(v) => v
      case None => default
    }
  }

  /** Either a value or the error an operation raised. */
  datatype Result<T, E> = Ok(value: T) | Err(error: E)
}

/** Optional values and outcomes shared by the other modules. */
module Wrappers {

  /** A value that may be absent (Python's `None`, or a missing dict key). */
  datatype Option<+T> = None | Some(value: T) {
    function GetOr(default: T): T {
      match this
      case Some(v) => v
      case None => default
    }
  }

  /** The outcome of an operation that either returns a value or raises one of
      the source's exceptions. */
  datatype Result<+T, +E> = Ok(value: T) | Err(error: E)
}

/** Failure-compatible wrappers shared by every module of the model. */
module Wrappers {

  /** A value that may be missing (Python's `None`, a lookup that found nothing). */
  datatype Option<+T> = None | Some(value: T) {
    function GetOr(default: T): T {
      match this
      case Some(v) => v
      case None => default
    }
  }

  /** A result that is either a value or the error that aborted the computation. */
  datatype Result<+T, +E> = Ok(value: T) | Err(error: E)
}

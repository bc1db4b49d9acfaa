/** Failure-compatible wrappers shared by every component of the model. */
module Wrappers {

  /** A value that may be absent: Python's `None` versus a present value. */
  datatype Option<+T> = None | Some(value: T) {

    /** The wrapped value, or `default` when absent. */
    function GetOr(default: T): T {
      match this
      case Some(v) => v
      case None => default
    }
  }

  /** The outcome of an operation that can report an error value instead of a result. */
  datatype Result<+R, +E> = Success(value: R) | Failure(error: E)
}

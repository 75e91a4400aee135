/** Failure-carrying values shared by the whole model. */
module Wrappers {

  /** A JavaScript value that may be `null`/`undefined` (None) or present. */
  datatype Option<+T> = None | Some(value: T) {
    function GetOr(default: T): T {
      match this
      case Some(v) => v
      case None => default
    }
  }

  /** The outcome of an operation that may throw: a value or an error message. */
  datatype Result<+R> = Success(value: R) | Failure(error: string)
}

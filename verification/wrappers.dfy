/** Failure-compatible result types shared by the whole model. */
module Wrappers {

  /** A value that may be absent (JavaScript `undefined` from `Array.prototype.find`). */
  datatype Option<+T> = None | Some(value: T) {
    function GetOr(default: T): T {
      match this
      case Some(v) => v
      case None => default
    }
  }

  /** A repository answer: either a value or the message of the `Error` the source throws. */
  datatype Result<+R> = Success(value: R) | Failure(error: string)
}

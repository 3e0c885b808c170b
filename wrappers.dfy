/** Wrappers for the `undefined` results and the thrown errors of the extension. */
module Wrappers {

  /** A value or JavaScript's `undefined`. */
  datatype Option<+T> = None | Some(value: T) {
    function GetOr(default: T): T {
      match this
      case Some(v) => v
      case None => default
    }
  }

  /** A value, or the error an `async` function would reject with. */
  datatype Result<+T, +E> = Success(value: T) | Failure(error: E)
}

/** Helper datatypes shared by the model. */
module Wrappers {

  /** A value that may be absent: JavaScript's `null`/`undefined` where the source returns one. */
  datatype Option<+T> = None | Some(value: T) {
    function GetOr(default: T): T {
      match this
      case Some(v) => v
      case None => default
    }
  }

  /** The outcome of a host call that may raise an exception. */
  datatype Result<+R, +E> = Success(value: R) | Failure(error: E)
}

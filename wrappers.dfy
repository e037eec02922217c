/** Option and Result, the two failure-carrying shapes the model uses. */
module Wrappers {

  datatype Option<+T> = None | Some(value: T) {
    /** The value, or a default when there is none (Python's dict.get with a default). */
    function GetOr(default: T): T {
      match this
      case Some(v) => v
      case None => default
    }
  }

  /** A computation that either produced a value or raised an error that the source lets escape. */
  datatype Result<+T, +E> = Success(value: T) | Failure(error: E)
}

/** Option and Result: the success/failure values that replace Python's
    None returns and raised exceptions throughout the model. */
module Wrappers {

  datatype Option<+T> = None | Some(value: T) {
    function GetOr(default: T): T {
      match this
      case Some(v) => v
      case None => default
    }
  }

  /** A computation that either yields a value or raises an error whose
      message is the exception's text. */
  datatype Result<+T, +E> = Success(value: T) | Failure(error: E)
}

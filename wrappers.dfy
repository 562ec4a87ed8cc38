/** Option and Result datatypes used for the application's "missing value" and "raises" paths. */
module Wrappers {

  datatype Option<+T> = None | Some(value: T) {
    function GetOr(default: T): T {
      match this
      case Some(v) => v
      case None => default
    }
  }

  datatype Result<+R, +E> = Success(value: R) | Failure(error: E)

  /** The outcome of a check that either passes or raises with an error. */
  datatype Outcome<+E> = Pass | Fail(error: E)
}

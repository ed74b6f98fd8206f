/** Option and Result datatypes used across the model in place of the
    source's `undefined` values and thrown exceptions. */
module Wrappers {

  /** A value that may be absent (`undefined` in the source). */
  datatype Option<+T> = None | Some(value: T) {

    /** The wrapped value, or `default` when absent (a parameter default). */
    function GetOr(default: T): T {
      match this
      case Some(v) => v
      case None => default
    }
  }

  /** The outcome of a fallible operation: a value, or the error it throws. */
  datatype Result<+T, +E> = Success(value: T) | Failure(error: E)
}

/** Option and Result: Kotlin's nullable types and thrown exceptions, as values. */
module Wrappers {

  /** `T?` in Kotlin: `None` plays the part of `null`. */
  datatype Option<+T> = None | Some(value: T) {

    /** The Elvis operator `x ?: default`. */
    function GetOr(default: T): T {
      match this
      case Some(v) => v
      case None => default
    }
  }

  /** The outcome of an operation that can throw. */
  datatype Result<+R, +E> = Success(value: R) | Failure(error: E)
}

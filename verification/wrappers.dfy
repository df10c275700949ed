/** The two wrappers used throughout the model: an optional value (Kotlin's
    nullable types) and a success-or-failure result (the exceptions the
    library throws). */
module Wrappers {

  /** An optional value; `None` stands for Kotlin's `null`. */
  datatype Option<+T> = None | Some(value: T) {

    /** The wrapped value, or `default` when there is none (Kotlin's `?:`). */
    function GetOr(default: T): T {
      match this
      case Some(v) => v
      case None => default
    }
  }

  /** Either a value or the error that stopped the computation. */
  datatype Result<+R, +E> = Success(value: R) | Failure(error: E)
}

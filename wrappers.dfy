/** Option and Result, for JavaScript's `undefined` fields and for error returns. */
module Wrappers {

  /** A value that may be absent (`undefined` / `null` in the modelled code). */
  datatype Option<+T> = None | Some(value: T) {

    /** The value, or `default` when absent (JavaScript's `??`). */
    function GetOr(default: T): T {
      match this
      case Some(v) => v
      case None => default
    }
  }

  /** The outcome of an operation that may be refused. */
  datatype Result<+T, +E> = Success(value: T) | Failure(error: E)
}

/** Failure-carrying datatypes shared by the model: `Option` for PHP's nullable
    values and `Result` for operations that can throw. */
module Wrappers {

  /** A PHP value that may be `null`. */
  datatype Option<+T> = None | Some(value: T) {

    /** The value, or `default` when it is `null` (PHP's `??`). */
    function GetOr(default: T): T {
      match this
      case Some(v) => v
      case None => default
    }
  }

  /** Either a value or the exception that was thrown instead. */
  datatype Result<+R, +E> = Success(value: R) | Failure(error: E) {

    predicate IsFailure() {
      Failure?
    }

    function PropagateFailure<U>(): Result<U, E>
      requires Failure?
    {
      Failure(error)
    }

    function Extract(): R
      requires Success?
    {
      value
    }
  }
}

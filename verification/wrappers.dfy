/** Failure-compatible wrappers used throughout the model. */
module Wrappers {

  /** An optional value; stands for JavaScript `null`/absent where the bridge tests for presence. */
  datatype Option<+T> = None | Some(value: T) {

    /** The wrapped value, or `default` when absent (a destructuring default). */
    function GetOr(default: T): T {
      match this
      case Some(v) => v
      case None => default
    }
  }

  /** Either a value or the error a JavaScript call would throw (or reject with). */
  datatype Result<+R, +E> = Success(value: R) | Failure(error: E) {

    predicate IsFailure() {
      Failure?
    }

    function PropagateFailure<U>(): Result<U, E>
      requires Failure?
    {
      Failure(error)
    }

    function Extract(): R
      requires Success?
    {
      value
    }
  }
}

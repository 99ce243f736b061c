/** Failure-compatible wrappers: an optional value (JavaScript's `null` or a
    value) and a result that is either a value or the error a call raises. */
module Wrappers {

  /** A value or nothing; `None` stands for a JavaScript `null` result. */
  datatype Option<+T> = None | Some(value: T)

  /** A value, or the error that a call throws (or a Promise rejects with).
      Usable with `:-`. */
  datatype Result<+R, +E> = Success(value: R) | Failure(error: E) {

    predicate IsFailure() {
      Failure?
    }

    function PropagateFailure<U>(): Result<U, E>
      requires Failure?
    {
      Failure(error)
    }

    function Extract(): R
      requires Success?
    {
      value
    }
  }
}

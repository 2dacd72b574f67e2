/** Failure-compatible result types shared by the codec and the broker. */
module Wrappers {

  /** An optional value; `None` stands for Go's nil error or a missing key. */
  datatype Option<+T> = None | Some(value: T)

  /** A value or an error, usable with `:-`. */
  datatype Result<+R, +E> = Success(value: R) | Failure(error: E) {

    predicate IsFailure() {
      Failure?
    }

    function PropagateFailure<U>(): Result<U, E>
      requires Failure?
    {
      Failure(error)
    }

    function Extract(): R
      requires Success?
    {
      value
    }
  }
}

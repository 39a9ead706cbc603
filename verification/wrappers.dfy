/** The two result shapes the model shares: an optional value, for Python's `None`, and a value or
    the error the Python code would raise. */
module Wrappers {

  /** `None` or a present value. */
  datatype Option<+T> = None | Some(value: T)

  /** A computed value, or the error that stops the computation. The three members below are what
      the `:-` operator needs to pass an error on unchanged. */
  datatype Result<+T, +E> = Success(value: T) | Failure(error: E) {

    predicate IsFailure() {
      Failure?
    }

    function PropagateFailure<U>(): Result<U, E>
      requires Failure?
    {
      Failure(error)
    }

    function Extract(): T
      requires Success?
    {
      value
    }
  }
}

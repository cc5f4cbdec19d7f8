/** Option and Result, used for Python's `None` and for Python's raised exceptions. */
module Wrappers {

  datatype Option<+T> = None | Some(value: T)

  /** Success carries a value; Failure carries the exception the Python code would raise. */
  datatype Result<+T, +E> = Success(value: T) | Failure(error: E) {

    predicate IsFailure() {
      Failure?
    }

    function PropagateFailure<U>(): Result<U, E>
      requires Failure?
    {
      Failure(error)
    }

    function Extract(): T
      requires Success?
    {
      value
    }
  }
}

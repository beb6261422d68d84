/** Failure-compatible wrappers used by every module of the model.
    `None` stands for JavaScript's `null`/`undefined`/`NaN` where the
    driver produces one; `Failure` stands for an exception the driver throws. */
module Wrappers {

  datatype Option<+T> = None | Some(value: T)

  datatype Result<+T, +E> = Success(value: T) | Failure(error: E) {

    predicate IsFailure() {
      Failure?
    }

    function PropagateFailure<U>(): Result<U, E>
      requires Failure?
    {
      Failure(error)
    }

    function Extract(): T
      requires Success?
    {
      value
    }
  }
}

/** Failure-compatible result types used throughout the model. */
module Wrappers {

  /** An optional value: `None` stands for Go's nil or an absent field. */
  datatype Option<+T> = None | Some(value: T)

  /** Either a value or the error the Go code would return beside it. */
  datatype Result<+R, +E> = Success(value: R) | Failure(error: E) {

    predicate IsFailure() {
      Failure?
    }

    function PropagateFailure<U>(): Result<U, E>
      requires Failure?
    {
      Failure(error)
    }

    function Extract(): R
      requires Success?
    {
      value
    }
  }
}

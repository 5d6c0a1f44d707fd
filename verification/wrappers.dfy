/** Failure-compatible wrappers for the Go idiom of returning a value together
    with an `error` that is nil on success. */
module Wrappers {

  /** A value that may be absent; `None` plays the role of Go's nil. */
  datatype Option<+T> = None | Some(value: T)

  /** Either a computed value or the error that stopped the computation. */
  datatype Result<+T, +E> = Success(value: T) | Failure(error: E) {

    predicate IsFailure() {
      Failure?
    }

    function PropagateFailure<U>(): Result<U, E>
      requires Failure?
    {
      Failure(error)
    }

    function Extract(): T
      requires Success?
    {
      value
    }
  }
}

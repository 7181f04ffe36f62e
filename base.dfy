/** Failure-compatible wrappers shared by every module of the model. */
module Base {

  /** A value that may be absent: a Go value that may be nil, such as an error. */
  datatype Option<+T> = None | Some(value: T)

  /** The outcome of a Go function returning `(T, error)`. */
  datatype Result<+T, +E> = Success(value: T) | Failure(error: E) {
    predicate IsFailure() { Failure? }

    function PropagateFailure<U>(): Result<U, E>
      requires Failure?
    {
      Failure(error)
    }

    function Extract(): T
      requires Success?
    {
      value
    }
  }
}

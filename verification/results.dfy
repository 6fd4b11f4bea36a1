/** Failure-compatible result type used for the operations that raise in the
    original configuration reader. */
module Results {

  datatype Option<+T> = None | Some(value: T)

  /** Either a value or the error the original code raises. */
  datatype Result<+T, +E> = Success(value: T) | Failure(error: E) {

    predicate IsFailure() {
      Failure?
    }

    function PropagateFailure<U>(): Result<U, E>
      requires Failure?
    {
      Failure(error)
    }

    function Extract(): T
      requires Success?
    {
      value
    }
  }
}

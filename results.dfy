/** Failure-compatible wrappers for the error paths of the modelled code:
    a thrown exception becomes an `Err` (or a `None`) instead of a precondition. */
module Results {

  /** Either a value or the error that the source would have thrown. */
  datatype Result<+T, +E> = Ok(value: T) | Err(error: E) {

    predicate IsFailure() {
      Err?
    }

    function PropagateFailure<U>(): Result<U, E>
      requires Err?
    {
      Err(error)
    }

    function Extract(): T
      requires Ok?
    {
      value
    }
  }

  /** A value, or nothing when the computation gave up. */
  datatype Option<+T> = None | Some(value: T)
}

/** Failure-carrying values that replace the exceptions of the address book:
    a field that does not parse, a lookup that finds nothing, a date that
    cannot be moved to another year. */
module Results {

  /** A value that may be absent (Python's `None`). */
  datatype Option<+T> = None | Some(value: T)

  /** Either a computed value or the error that stopped the computation.
      Usable with `:-`, so the first failure propagates unchanged. */
  datatype Result<+T, +E> = Success(value: T) | Failure(error: E) {

    predicate IsFailure() {
      Failure?
    }

    function PropagateFailure<U>(): Result<U, E>
      requires Failure?
    {
      Failure(error)
    }

    function Extract(): T
      requires Success?
    {
      value
    }
  }
}

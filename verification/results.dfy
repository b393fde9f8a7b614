/** Outcomes of operations whose Java counterpart can throw instead of returning. */
module Results {

  datatype Option<+T> = None | Some(value: T)

  /** Why an operation did not return: the Java code would have thrown. */
  datatype Error =
    | OutOfBounds      // IndexOutOfBoundsException from a memory-segment access
    | AssertionFailed  // a Java `assert` that fails (assertions enabled)
    | BadSize          // a size Java rejects: Math.toIntExact overflow or a negative length

  /** A failure-compatible result, usable with `:-`. */
  datatype Result<+T> = Success(value: T) | Failure(error: Error) {

    predicate IsFailure() {
      Failure?
    }

    function PropagateFailure<U>(): Result<U>
      requires Failure?
    {
      Failure(error)
    }

    function Extract(): T
      requires Success?
    {
      value
    }
  }
}

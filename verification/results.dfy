/** Error kinds of the tournament runner and the failure-compatible result type
    that replaces its uncaught exceptions. */
module Results {

  /** The two fatal conditions of a tournament run. `UnexpectedGameCount` carries
      the number of termination markers that were found; the message text and the
      diagnostic excerpt of the runner's exceptions are not modelled. */
  datatype Error =
    | UnexpectedGameCount(found: nat)
    | ScoreNotFound

  datatype Result<+T> = Success(value: T) | Failure(error: Error) {

    predicate IsFailure() {
      Failure?
    }

    function PropagateFailure<U>(): Result<U>
      requires Failure?
    {
      Failure(error)
    }

    function Extract(): T
      requires Success?
    {
      value
    }
  }
}

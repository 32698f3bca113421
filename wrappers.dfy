/** Failure-compatible result types and the exceptions the modelled code can raise. */
module Wrappers {

  /** The value a nullable reference holds: nothing, or one value. */
  datatype Option<+T> = None | Some(value: T)

  /** Either a value or the exception that interrupted the computation. */
  datatype Result<+R, +E> = Success(value: R) | Failure(error: E) {
    predicate IsFailure() {
      Failure?
    }

    function PropagateFailure<U>(): Result<U, E>
      requires Failure?
    {
      Failure(error)
    }

    function Extract(): R
      requires Success?
    {
      value
    }
  }

  /** The .NET exceptions that the modelled code lets escape to its caller. */
  datatype Exception =
    | ArgumentOutOfRange   // DateTime.AddYears: the resulting year is not in 1..9999
    | InvalidOperation     // SingleOrDefault: the sequence holds more than one match
}

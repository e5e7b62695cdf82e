/** Failure-carrying results for the exceptions the planner's domain code throws.
    A method that throws in the source returns `Failure(e)` (or `Fail(e)`) here. */
module Wrappers {

  /** A Java reference that may be null. */
  datatype Option<+T> = None | Some(value: T)

  /** The runtime exceptions the modelled code can raise. */
  datatype Exception =
    | IllegalArgument(message: string)
    | NullPointer
    | InvalidJwtToken

  /** The outcome of a call that returns a value or throws. */
  datatype Result<+T> = Success(value: T) | Failure(error: Exception)

  /** The outcome of a `void` call that may throw. */
  datatype Outcome = Pass | Fail(error: Exception)
}

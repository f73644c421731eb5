/** Failure-carrying values that stand for the exceptions the editor lets escape. */
module Wrappers {

  /** A reference that may be null (`getImage`, `getOriginalImage`). */
  datatype Option<+T> = None | Some(value: T)

  /** The Java exceptions the codec can raise, as values. */
  datatype Error =
    | NoSuchElement     // java.util.NoSuchElementException: input exhausted
    | InputMismatch     // java.util.InputMismatchException: token is not an int
    | IllegalArgument   // IllegalArgumentException: bad dimension or channel value
    | IllegalState      // IllegalStateException: nothing to write

  /** A value or the exception that aborted its computation. */
  datatype Result<+T> = Success(value: T) | Failure(error: Error) {
    predicate IsFailure() { Failure? }

    function PropagateFailure<U>(): Result<U>
      requires Failure?
    {
      Failure(error)
    }

    function Extract(): T
      requires Success?
    {
      value
    }
  }

  /** The outcome of a `void` method that may throw. */
  datatype Outcome = Pass | Fail(error: Error)
}

/** Option and Result, the failure-compatible wrappers the rest of the model uses
    in place of C# null and thrown exceptions. */
module Wrappers {

  /** A value that may be absent: C# `null` for a nullable reference or `Nullable<T>`. */
  datatype Option<+T> = None | Some(value: T)

  /** The outcome of an operation that can throw: its value, or the error it raised. */
  datatype Result<+T, +E> = Success(value: T) | Failure(error: E) {

    predicate IsFailure() {
      Failure?
    }

    function PropagateFailure<U>(): Result<U, E>
      requires Failure?
    {
      Failure(error)
    }

    function Extract(): T
      requires Success?
    {
      value
    }
  }
}

/** The exceptions the core raises, reduced to their kinds and the offending input. */
module Errors {

  datatype Error =
    | ArgumentNull                          // ArgumentNullException: null, empty or blank source
    | UnrecognizedProtocol(source: string)  // ArgumentOutOfRangeException: unknown technology token
    | UnrecognizedBoolean(value: string)    // Exception: token outside the boolean vocabulary
}

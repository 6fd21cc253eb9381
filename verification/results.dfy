/** Failure-compatible wrappers shared by every component of the JSON engine.

    `Error` folds together the ways a call into the engine can end abruptly:
    the engine's own `JsonParseError` (message plus the tokenizer location at
    which it was raised) and the Java runtime exceptions that the code lets
    escape (`NumberFormatException`, `NullPointerException`,
    `StringIndexOutOfBoundsException`). */
module Results {

  datatype Option<+T> = None | Some(value: T)

  datatype Error =
    | ParseError(message: string, location: int)
    | NumberFormat(text: string)
    | NullPointer
    | IndexOutOfBounds

  datatype Result<+T> = Success(value: T) | Failure(error: Error) {

    predicate IsFailure() {
      Failure?
    }

    function PropagateFailure<U>(): Result<U>
      requires Failure?
    {
      Failure(error)
    }

    function Extract(): T
      requires Success?
    {
      value
    }
  }
}

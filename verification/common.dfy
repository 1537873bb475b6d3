/** Values that stand in for Java's `null` and for a thrown exception. */
module Wrappers {

  /** `None` models a Java `null` reference. */
  datatype Option<+T> = None | Some(value: T)

  /** A call either returns normally with a value or throws. */
  datatype Result<+T, +E> = Success(value: T) | Failure(error: E)
}

/** The unchecked exceptions the modelled code can throw, with the messages it passes. */
module Exceptions {

  datatype Exception =
    | NullPointer(message: string)        // Preconditions.checkNotNull
    | IllegalState(message: string)       // Preconditions.checkState
    | IllegalArgument                     // Preconditions.checkArgument, Object.wait with a negative timeout
    | IOFailure                           // an IOException wrapping a failure of the embedded server
}

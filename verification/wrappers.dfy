/** Failure-carrying result type used for the exceptions the interpreter raises. */
module Wrappers {

  /** Either a value or the error that the source would have raised instead. */
  datatype Result<R, E> = Success(value: R) | Failure(error: E)
}

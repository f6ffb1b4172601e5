/** The exceptions the Java code throws, as values. */
module Errors {

  /** IndexOutOfBoundsException, IllegalArgumentException, IllegalStateException. */
  datatype Error = IndexOutOfBounds | IllegalArgument | IllegalState

  /** The result of an operation that returns a value or throws. */
  datatype Result<+T> = Ok(value: T) | Err(error: Error)

  /** The result of a `void` operation that may throw. */
  datatype Outcome = Pass | Fail(error: Error)
}

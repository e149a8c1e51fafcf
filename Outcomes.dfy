/**
 * The ways a list operation can end: the exceptions the two containers throw
 * are values here, so that every error path is part of an operation's result.
 */
module Outcomes {

  /** The exceptions thrown by the containers. */
  datatype Error =
    | ArrayIndexOutOfBounds  // java.lang.ArrayIndexOutOfBoundsException
    | IndexOutOfBounds       // java.lang.IndexOutOfBoundsException
    | NoSuchElement          // java.util.NoSuchElementException

  /** An operation that returns a value or throws. */
  datatype Result<+T> = Ok(value: T) | Err(error: Error)

  /** An operation that returns nothing or throws. */
  datatype Outcome = Pass | Fail(error: Error)
}

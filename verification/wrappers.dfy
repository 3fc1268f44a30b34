/** Option, Result and Outcome: the model's stand-ins for Java's null and for checked exceptions. */
module Wrappers {

  /** A value that may be absent (a Java reference that may be null). */
  datatype Option<+T> = None | Some(value: T)

  /** Either a value or the exception that was thrown instead. */
  datatype Result<+R, +E> = Success(value: R) | Failure(error: E)

  /** The outcome of a `void` operation: it returned normally or it threw. */
  datatype Outcome<+E> = Pass | Fail(error: E)
}

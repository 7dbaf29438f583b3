/** Option and Result values standing in for Java's null and thrown exceptions. */
module Wrappers {

  /** A value that may be absent: `None` plays the part of Java's `null`. */
  datatype Option<+T> = None | Some(value: T)

  /** The outcome of an operation that may fail with an exception. */
  datatype Result<+R, +E> = Success(value: R) | Failure(error: E)

  /** The exception a failed argument check throws. */
  datatype Error = IllegalArgument(message: string)
}

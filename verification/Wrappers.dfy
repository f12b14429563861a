/** Failure-carrying wrappers used across the model: Java exceptions and
    empty query results become explicit variants. */
module Wrappers {

  /** An optional value: `None` where the Java code would produce nothing. */
  datatype Option<+T> = None | Some(value: T)

  /** A value or the error that the Java code would have thrown instead. */
  datatype Result<+R, +E> = Success(value: R) | Failure(error: E)
}

/** Failure-compatible result types used throughout the model. */
module Wrappers {

  /** Present-or-absent value; stands in for a Java reference that may be null. */
  datatype Option<+T> = None | Some(value: T)

  /** Either a value or the exception the Java code would throw. */
  datatype Result<+R, +E> = Success(value: R) | Failure(error: E)
}

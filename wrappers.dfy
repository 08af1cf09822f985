/** Option and Result: a Java reference that may be null, and an operation that may throw. */
module Wrappers {

  /** `None` stands for a null reference. */
  datatype Option<+T> = None | Some(value: T)

  /** `Failure` stands for an exception thrown out of a service call. */
  datatype Result<+R, +E> = Success(value: R) | Failure(error: E)
}

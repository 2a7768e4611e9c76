/** Failure-carrying datatypes used to model .NET exceptions as values. */
module Wrappers {

  /** A value that may be absent: a parse that can fail, a reference that can be null. */
  datatype Option<+T> = None | Some(value: T)

  /** The outcome of an operation that either returns a value or throws. */
  datatype Result<+R, +E> = Success(value: R) | Failure(error: E)
}

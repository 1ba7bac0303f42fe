/** The outcome of an operation that either returns a value or raises an exception. */
module Wrappers {

  datatype Result<+T, +E> = Success(value: T) | Failure(error: E)
}

/** Failure-carrying results: the model's stand-in for the exceptions and
    null returns of the Java code. */
module Wrappers {

  datatype Option<+T> = None | Some(value: T)

  datatype Result<+T, +E> = Success(value: T) | Failure(error: E) {
    predicate IsFailure() { Failure? }
  }

  datatype Outcome<+E> = Pass | Fail(error: E)
}

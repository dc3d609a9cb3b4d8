/** Failure-carrying results: how the model states the exceptions the tracker raises. */
module Wrappers {

  datatype Option<+T> = None | Some(value: T)

  datatype Result<+T, +E> = Success(value: T) | Failure(error: E)

  /** A check that either passes or fails with an error, for operations that return nothing. */
  datatype Outcome<+E> = Pass | Fail(error: E)
}

/** Option and outcome datatypes shared by the modules of this model. */
module Wrappers {

  datatype Option<+T> = None | Some(value: T)

  /** The result of an operation that either yields a value or fails with an error. */
  datatype Result<+T, +E> = Success(value: T) | Failure(error: E)

  /** The result of an operation that is run for its effect and may fail. */
  datatype Outcome<+E> = Pass | Fail(error: E)
}

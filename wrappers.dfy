/** Option, Result and Outcome: the values the model uses for Ruby's nil and raised errors. */
module Wrappers {

  /** `None` stands for Ruby's nil. */
  datatype Option<+T> = None | Some(value: T)

  datatype Result<+R, +E> = Success(value: R) | Failure(error: E)

  datatype Outcome<+E> = Pass | Fail(error: E)
}

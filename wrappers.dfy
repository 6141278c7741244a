/** Option and Result: the failure-carrying values the model returns where the source
    returns a nullable value, a `Result<T>` or a `Status`. */
module Wrappers {

  datatype Option<+T> = None | Some(value: T)

  datatype Result<+T, +E> = Success(value: T) | Failure(error: E)

  /** Success without a value, or the error a check failed with. */
  datatype Outcome<+E> = Pass | Fail(error: E)
}

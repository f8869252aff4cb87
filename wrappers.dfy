/** Option and Result, shared by every module of the model. */
module Wrappers {

  /** An optional value (Python's `None` or a value). */
  datatype Option<+T> = None | Some(value: T)

  /** The outcome of an operation that can abort with an error. */
  datatype Result<+R, +E> = Success(value: R) | Failure(error: E)
}

/** Option and Result, the two failure-carrying types the model uses. */
module Wrappers {

  /** An optional value; `None` stands for Python's `None`. */
  datatype Option<+T> = None | Some(value: T)

  /** The outcome of a step that may raise: its value, or the error that aborts the run. */
  datatype Result<+T, +E> = Success(value: T) | Failure(error: E)
}

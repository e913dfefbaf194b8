/** The `Option` and `Result` wrappers used throughout the model. */
module Wrappers {

  /** A value that may be absent: Python's `None` versus a present value. */
  datatype Option<+T> = None | Some(value: T)

  /** The outcome of a run that either returns a value or aborts with an error. */
  datatype Result<+R, +E> = Success(value: R) | Failure(error: E)
}

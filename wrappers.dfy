/** Failure-compatible result types shared by the model. */
module Wrappers {

  /** Python's `None` versus a present value. */
  datatype Option<+T> = None | Some(value: T)

  /** The outcome of an operation that the program aborts with an error message. */
  datatype Result<+R, +E> = Success(value: R) | Failure(error: E)
}

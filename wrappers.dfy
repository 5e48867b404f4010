/** Failure-carrying results used across the model. */
module Wrappers {

  /** Python's `None` versus a present value. */
  datatype Option<+T> = None | Some(value: T)

  /** A value, or the error the source raises or returns instead. */
  datatype Result<+R, +E> = Success(value: R) | Failure(error: E)
}

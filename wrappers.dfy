/** Option and Result: the model's stand-ins for Python's `None` and for raised exceptions. */
module Wrappers {

  datatype Option<+T> = None | Some(value: T)

  /** `Failure(e)` stands for an exception `e` propagating to the caller. */
  datatype Result<+T, +E> = Success(value: T) | Failure(error: E)
}

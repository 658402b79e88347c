/** Failure-carrying results used wherever the source throws or leaves a value undefined. */
module Wrappers {

  datatype Option<+T> = None | Some(value: T)

  datatype Result<+T, +E> = Success(value: T) | Failure(error: E)
}

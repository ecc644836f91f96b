/** Failure-compatible result types used where the Python code returns
    `False` instead of a tuple, or raises a lookup/division error. */
module Wrappers {

  datatype Option<+T> = None | Some(value: T)

  datatype Result<+T, +E> = Success(value: T) | Failure(error: E)
}

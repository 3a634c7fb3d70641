/** Failure-carrying results: the C++ code throws std::runtime_error; the model returns Failure. */
module Wrappers {

  datatype Option<+T> = None | Some(value: T)

  datatype Result<+T, +E> = Success(value: T) | Failure(error: E)
}

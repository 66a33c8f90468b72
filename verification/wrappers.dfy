/** Failure-carrying values: Python's `None` results and raised exceptions become data here. */
module Wrappers {

  datatype Option<+T> = None | Some(value: T)

  datatype Result<+R, +E> = Success(value: R) | Failure(error: E)
}

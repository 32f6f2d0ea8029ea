/** Failure-carrying results, used wherever the source returns `Result` or
    an optional value. */
module Wrappers {

  datatype Option<+T> = None | Some(value: T)

  datatype Result<+T, +E> = Success(value: T) | Failure(error: E)
}

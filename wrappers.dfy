/** Failure-carrying results: the model's stand-in for the exceptions the
    pipeline raises (a malformed score, a missing column, an empty split). */
module Wrappers {

  datatype Option<+T> = None | Some(value: T)

  datatype Result<+R, +E> = Success(value: R) | Failure(error: E)
}

/** Failure-compatible wrappers: an optional value, and a value-or-error standing for a
    JavaScript function that either returns or throws. */
module Wrappers {

  datatype Option<+T> = None | Some(value: T)

  datatype Result<+T, +E> = Success(value: T) | Failure(error: E)
}

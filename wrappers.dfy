/** Failure-carrying values: a Ruby `nil` becomes `None`, a Ruby exception that
    aborts the script becomes a `Failure`. */
module Wrappers {

  datatype Option<+T> = None | Some(value: T)

  datatype Result<+R, +E> = Success(value: R) | Failure(error: E)
}

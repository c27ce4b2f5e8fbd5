/** Failure-carrying results, for decoders and for the one encoder input that
    can be malformed. */
module Wrappers {

  datatype Option<+T> = None | Some(value: T)

  datatype Result<+T, +E> = Success(value: T) | Failure(error: E)
}

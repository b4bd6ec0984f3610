/** Failure-carrying wrappers: the source signals errors by throwing, the model returns them. */
module Wrappers {

  /** A value that may be absent, as an optional argument or `undefined` is in the source. */
  datatype Option<+T> = None | Some(value: T)

  /** Either the computed value or the error the source would have thrown. */
  datatype Result<+R, +E> = Success(value: R) | Failure(error: E)
}

/** An optional value, and a value-or-error result. */
module Wrappers {

  /** A value that may be absent; the mean of a subcomponent with no samples is `None`. */
  datatype Option<+T> = None | Some(value: T)

  /** Either a value or the error that stopped the computation. */
  datatype Result<+R, +E> = Success(value: R) | Failure(error: E)
}

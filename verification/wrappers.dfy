/** Option and Result, the two shapes every fallible computation in this model returns. */
module Wrappers {

  /** A value that may be absent; in the JavaScript model `None` stands for `undefined`. */
  datatype Option<+T> = None | Some(value: T)

  /** Either a value or the error that was thrown instead. */
  datatype Result<+R, +E> = Success(value: R) | Failure(error: E)
}

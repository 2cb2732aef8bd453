/** Option and Result, the failure-carrying values the converter's operations return. */
module Wrappers {

  datatype Option<+T> = None | Some(value: T)

  /** `Failure` carries the message the source puts into `err.message`. */
  datatype Result<+R, +E> = Success(value: R) | Failure(error: E)
}

/** Failure-carrying datatypes shared by every module of the model. */
module Wrappers {

  /** A value that may be absent: JavaScript's `undefined`/`null` on a request field. */
  datatype Option<+T> = None | Some(value: T)

  /** The outcome of a handler: a value, or the error it answers with. */
  datatype Result<+R, +E> = Success(value: R) | Failure(error: E)
}

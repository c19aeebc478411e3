/** Failure-carrying wrappers shared by the whole model. */
module Wrappers {

  /** `None` stands for a JavaScript `null`/`undefined` or for a call that threw. */
  datatype Option<+T> = None | Some(value: T)

  /** The outcome of an operation that may fail with a reason. */
  datatype Result<+R, +E> = Success(value: R) | Failure(error: E)
}

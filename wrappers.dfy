/** Optional values and success-or-error outcomes shared by every module. */
module Wrappers {

  /** A value that may be absent: JavaScript's `null`/`undefined`, or a `NaN` from a parse. */
  datatype Option<+T> = None | Some(value: T)

  /** The outcome of an operation that can throw: the resolved value, or the error message. */
  datatype Result<+R> = Success(value: R) | Failure(error: string)
}

/** Failure-carrying results used by the handler's validation chain. */
module Wrappers {

  /** A value that may be absent, like a JavaScript property that may be `undefined`. */
  datatype Option<+T> = None | Some(value: T)

  /** Either a computed value or an error message. */
  datatype Result<+R, +E> = Success(value: R) | Failure(error: E)
}

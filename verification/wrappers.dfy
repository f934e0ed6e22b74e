/** Failure-compatible wrappers shared by the other modules. */
module Wrappers {

  /** An optional value: absent (`undefined`, or a cleared timer handle) or present. */
  datatype Option<+T> = None | Some(value: T)

  /** The outcome of an operation that can throw: a value, or the error it throws. */
  datatype Result<+R, +E> = Ok(value: R) | Err(error: E)
}

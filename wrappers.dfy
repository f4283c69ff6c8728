/** Failure-compatible wrappers shared by the services. */
module Wrappers {

  /** An optional value, standing for a Python argument that may be None. */
  datatype Option<+T> = None | Some(value: T)

  /** The outcome of an operation that either returns a value or raises an error. */
  datatype Result<+T, +E> = Ok(value: T) | Err(error: E)
}

/** Optional values and error results shared by the model. */
module Wrappers {

  /** A value that may be absent, as Python's `None` default arguments are. */
  datatype Option<+T> = None | Some(value: T)

  /** The outcome of an operation that either returns a value or fails. */
  datatype Result<+T, +E> = Ok(value: T) | Err(error: E)
}

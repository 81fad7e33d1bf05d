/** The failure-carrying results shared by every other module. */
module Wrappers {
  datatype Option<+T> = None | Some(value: T)

  /** A returned value, or the exception the C++ or Python code throws instead. */
  datatype Result<+T, +E> = Ok(value: T) | Err(error: E)
}

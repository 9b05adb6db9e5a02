/** Option and Result values used for the Python code's `None` and raised exceptions. */
module Wrappers {

  datatype Option<+T> = None | Some(value: T)

  /** `Err` carries what the Python code raises; `Ok` what it returns. */
  datatype Result<+T, +E> = Ok(value: T) | Err(error: E)
}

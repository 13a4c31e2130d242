/** Option and Result values for the model's error paths. */
module Wrappers {

  datatype Option<+T> = None | Some(value: T)

  /** A value or the description of the failure that the source reports instead. */
  datatype Result<+T, +E> = Ok(value: T) | Err(error: E)
}

/** Option and Result, shared by every component of the model. */
module Wrappers {

  datatype Option<+T> = None | Some(value: T)

  /** A Go return pair of a value and an error. */
  datatype Result<+T> = Ok(value: T) | Err(error: string)
}

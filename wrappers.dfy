/** Option and Result values shared by the model's modules. */
module Wrappers {
  datatype Option<+T> = None | Some(value: T)

  /** A computation that either produced a value or raised an error. */
  datatype Result<+T> = Ok(value: T) | Err(error: string)
}

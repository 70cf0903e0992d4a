/** Option and Result values shared by the modules of the model. */
module Wrappers {

  /** A value that may be missing (Python's `None`). */
  datatype Option<+T> = None | Some(value: T)

  /** The outcome of a call that may raise: the value, or the exception's message. */
  datatype Result<+T> = Ok(value: T) | Err(message: string)
}

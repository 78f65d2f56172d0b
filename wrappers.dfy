/** Option and Result types shared by the other modules. */
module Wrappers {

  /** A value that may be absent: a dictionary key that is not set yet, or no match found. */
  datatype Option<+T> = None | Some(value: T)

  /** The outcome of an operation that can fail with a message. */
  datatype Result<+T> = Ok(value: T) | Err(message: string)
}

/** Outcome types standing in for Python's exceptions and optional values. */
module Wrappers {

  datatype Option<T> = None | Some(value: T)

  /** A computed value, or the message of the ValueError the source raises instead. */
  datatype Result<T> = Ok(value: T) | Err(msg: string)

  /** How a state-changing operation ended: normally, or by raising with a message. */
  datatype Status = Completed | Raised(msg: string)
}

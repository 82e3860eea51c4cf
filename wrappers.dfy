/** Option and Result values standing for SQL NULL, Python `None` and raised exceptions. */
module Wrappers {

  datatype Option<+T> = None | Some(value: T)

  /** The outcome of a call that either returns a value or raises an exception with a message. */
  datatype Result<+T> = Ok(value: T) | Err(msg: string)

  /** The outcome of a call that returns nothing of interest, or raises. */
  datatype Outcome = Done | Raised(msg: string)
}

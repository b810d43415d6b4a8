/** Outcome of an engine query that can fail: the value, or the message of the error it raises. */
module Wrappers {

  datatype Result<+T> = Ok(value: T) | Err(message: string)
}

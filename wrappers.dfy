/** Go's `(value, error)` returns and nil-able values, as datatypes. */
module Wrappers {

  /** A value that may be absent (a nil pointer, a missing map entry). */
  datatype Option<+T> = None | Some(value: T)

  /** A value or the message of the Go `error` returned in its place. */
  datatype Result<+T> = Ok(value: T) | Err(error: string)
}

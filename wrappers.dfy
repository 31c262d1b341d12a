/** Failure-carrying result types shared by the naming policy and the two passes. */
module Wrappers {

  datatype Option<+T> = None | Some(value: T)

  /** A value or an error message (the `anyhow::Result` of the library). */
  datatype Result<+T> = Ok(value: T) | Err(error: string)

  /** A step that yields no value: it passed, or it failed with a message. */
  datatype Outcome = Pass | Fail(error: string)
}

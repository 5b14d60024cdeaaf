/** Optional values and results with an error, shared by the other modules. */
module Wrappers {

  /** A value that may be absent (the source's `null`/`undefined`). */
  datatype Option<+T> = None | Some(value: T)

  /** The outcome of an operation that either yields a value or throws an error message. */
  datatype Result<+T> = Ok(value: T) | Err(error: string)
}

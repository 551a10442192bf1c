/** Optional values and the outcome of a call into the remote spreadsheet. */
module Wrappers {

  /** A value that may be absent: JavaScript's `null` / `undefined`. */
  datatype Option<T> = None | Some(value: T)

  /** The outcome of an operation that reaches the remote spreadsheet:
      either its value, or `Failed` when the remote call threw. */
  datatype Result<T> = Ok(value: T) | Failed
}

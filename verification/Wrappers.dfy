/** Optional values and success/failure results, standing in for the
    `undefined`-able fields and the thrown errors of the TypeScript program. */
module Wrappers {

  /** A value that may be absent (`undefined` in the source). */
  datatype Option<+T> = None | Some(value: T)

  /** The outcome of a step that may throw: its value, or the thrown error. */
  datatype Result<+T, +E> = Ok(value: T) | Err(error: E)
}

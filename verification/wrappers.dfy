/** Optional values and call outcomes used throughout the model: `Option` stands for a
    TypeScript value that may be `null`/`undefined`, `Result` for a call that may throw. */
module Wrappers {

  /** A value that may be absent (`null` or `undefined` in the source). */
  datatype Option<+T> = None | Some(value: T)

  /** The outcome of a call that either returns a value or throws an error. */
  datatype Result<+R, +E> = Success(value: R) | Failure(error: E)
}

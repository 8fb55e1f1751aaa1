/** Optional values, and the success/failure results of operations that can fail. */
module Wrappers {

  /** A value that may be absent: TypeScript's `undefined` / `null`. */
  datatype Option<+T> = None | Some(value: T)

  /** The outcome of an operation that yields a value or rejects with an error. */
  datatype Result<+T, +E> = Success(value: T) | Failure(error: E)

  /** The outcome of an operation that yields nothing or rejects with an error. */
  datatype Outcome<+E> = Pass | Fail(error: E)
}

/** Optional values (JavaScript's `undefined`) and fallible results (a thrown error). */
module Wrappers {

  /** A value that may be absent, as `T | undefined` is in TypeScript. */
  datatype Option<+T> = None | Some(value: T)

  /** The outcome of an operation that either returns a value or throws. */
  datatype Result<+R, +E> = Success(value: R) | Failure(error: E)
}

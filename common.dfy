/** Optional values and success-or-failure values shared by every module. */
module Common {

  /** A value that may be absent (JavaScript's `null` / `undefined` result). */
  datatype Option<+T> = None | Some(value: T)

  /** A computation that either yields a value or raises an error. */
  datatype Result<+T, +E> = Success(value: T) | Failure(error: E)
}

/** Absent values and stopped runs: a missing file, an unset key, an exit before the page is written. */
module Wrappers {

  /** A value that may be absent: a missing file, an undefined property, a failed lookup. */
  datatype Option<+T> = None | Some(value: T)

  /** Either a computed value or the reason the computation stopped. */
  datatype Result<+T, +E> = Success(value: T) | Failure(error: E)
}

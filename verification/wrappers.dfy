/** Optional values and results with an error, used wherever the source returns null or throws. */
module Wrappers {

  /** A value that may be absent: `None` stands for the source's `null`. */
  datatype Option<+T> = None | Some(value: T)

  /** Either a value or the exception the source would throw instead. */
  datatype Result<+T, +E> = Success(value: T) | Failure(error: E)
}

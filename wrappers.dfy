/** Optional values and results with an error branch, shared by every module. */
module Wrappers {

  /** A value that may be absent (Python `None`, JavaScript `null`/`undefined`). */
  datatype Option<+T> = None | Some(value: T)

  /** The outcome of an operation that can fail with an error value. */
  datatype Result<+T, +E> = Ok(value: T) | Err(error: E)

  /** An HTTP error response: status code and the `detail` text of the body. */
  datatype HttpError = HttpError(status: int, detail: string)
}

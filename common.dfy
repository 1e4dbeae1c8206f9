/** Values shared by every part of the contest backend: optional values,
    the outcome of an operation that may raise, and the HTTP error kinds
    the backend raises. */
module Common {

  datatype Option<+T> = None | Some(value: T)

  /** How a request fails.  `Internal` is the backend's own `HTTPError`
      wrapper (HTTP 500 with the cause attached); `Uncaught` is a Python
      exception that escapes without being wrapped, which the framework
      also turns into a 500. */
  datatype ErrorKind =
    | NotFound              // HTTP 404
    | UnprocessableEntity   // HTTP 422
    | UnsupportedMediaType  // HTTP 415
    | Internal              // HTTPError, HTTP 500
    | Uncaught              // an exception nobody wraps

  datatype Result<+T> = Ok(value: T) | Err(error: ErrorKind)

  /** An unsigned 8-bit image channel. */
  type byte = x: int | 0 <= x < 256
}

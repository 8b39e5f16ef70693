/** Failure-compatible wrappers shared by the calendar and the backend model. */
module Wrappers {

  datatype Option<+T> = None | Some(value: T)

  /** The error an HTTP handler raises: FastAPI's HTTPException(status_code, detail). */
  datatype HttpError = HttpError(status: int, detail: string)

  /** What a handler returns: the response body, or the HTTP error it raises. */
  datatype Result<+T> = Ok(value: T) | Err(error: HttpError)
}

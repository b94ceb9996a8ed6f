/** Shared vocabulary of the forms backend: identifiers, optional values,
    the HTTP error taxonomy the services raise, and partial-update fields. */
module Common {

  /** Document identifiers (Mongo ObjectIds rendered as strings). */
  type Id = string

  datatype Option<+T> = None | Some(value: T)

  /** The exceptions of app/exceptions/http.py, each with its `detail` text;
      the error a Pydantic validator raises, with its message (answered 422
      only when it comes from validating a request body); and an exception
      nothing handles (answered 500). */
  datatype HttpError =
    | NotFound(detail: string)
    | Unauthorized(detail: string)
    | Forbidden(detail: string)
    | BadRequest(detail: string)
    | Conflict(detail: string)
    | Unprocessable(detail: string)
    | ServerError(detail: string)

  /** A service call either returns a value or raises one HTTP error. */
  datatype Result<+T> = Ok(value: T) | Err(error: HttpError)

  /** One field of a partial-update payload: omitted from the request
      (excluded by `model_dump(exclude_unset=True)`) or supplied. */
  datatype Field<+T> = Unset | Set(value: T)

  /** The value a field holds after a partial update. */
  function Updated<T>(f: Field<T>, current: T): T
  {
    if f.Set? then f.value else current
  }

  /** One week, in the seconds of the `now` clock values. */
  const SevenDays: int := 7 * 24 * 60 * 60
}

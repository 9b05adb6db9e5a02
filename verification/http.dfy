/** What an endpoint answers: a body, an `HTTPException`, or an exception FastAPI turns into a 500. */
module Http {

  /** An `HTTPException`; `bearer` is the `WWW-Authenticate: Bearer` header. */
  datatype HttpError = HttpError(status: int, detail: string, bearer: bool)

  datatype Outcome<+T> = Success(value: T) | Failure(error: HttpError) | ServerError(exception: string)

  const BadRequest: int := 400
  const Unauthorized: int := 401
  const Forbidden: int := 403
  const NotFound: int := 404
}

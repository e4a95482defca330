/** How a request can fail: an `HTTPException` raised on purpose by the
    application, or any other exception escaping a handler, which the web
    framework turns into a 500 response. */
module Http {

  datatype Failure =
    | HttpError(status: int, detail: string)
    | Crash(reason: string)

  const BadRequest := 400
  const Unauthorized := 401
  const NotFound := 404
}

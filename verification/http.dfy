/** The error responses the route handlers raise. */
module Http {

  /** `HTTPException(status_code, detail)` */
  datatype HttpError = HttpError(status: nat, detail: string)

  const BadRequest: nat := 400
  const NotFound: nat := 404

  /** What the framework answers when a handler lets an exception escape. */
  const InternalError: HttpError := HttpError(500, "Internal Server Error")
}

/** The error value the services throw: an HTTP status code from the
    `http-status` table and a human-readable message. */
module ApiErrors {

  /** httpStatus.BAD_REQUEST */
  const BadRequest: nat := 400
  /** httpStatus.NOT_FOUND */
  const NotFound: nat := 404

  datatype ApiError = ApiError(statusCode: nat, message: string)
}

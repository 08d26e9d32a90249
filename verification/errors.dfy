/** The error values the services raise and the error handler turns into
    HTTP responses.  The error classes themselves (utils/errors.ts) are not
    part of this model; each application error carries the status code its
    class would give it, and the conventional HTTP codes are used here. */
module Errors {
  import opened Wrappers

  datatype AppErrorKind = NotFound | Forbidden | Conflict | Unauthorized | BadRequest

  datatype Error =
    /** An instance of one of the application's AppError subclasses. */
    | AppError(kind: AppErrorKind, statusCode: int, message: string)
    /** ValidationError: an AppError that also carries the grouped field messages. */
    | ValidationError(statusCode: int, message: string, errors: map<string, seq<string>>)
    /** Any other thrown value: database errors, library errors. */
    | OtherError(message: string, stack: Option<string>)
  {
    predicate IsAppError() { !OtherError? }
  }

  function NotFoundError(message: string): Error { AppError(NotFound, 404, message) }
  function ForbiddenError(message: string): Error { AppError(Forbidden, 403, message) }
  function ConflictError(message: string): Error { AppError(Conflict, 409, message) }
  function UnauthorizedError(message: string): Error { AppError(Unauthorized, 401, message) }
  function BadRequestError(message: string): Error { AppError(BadRequest, 400, message) }
  function MakeValidationError(message: string, errors: map<string, seq<string>>): Error {
    ValidationError(400, message, errors)
  }

  /** What the database raises when a write would duplicate a unique key. */
  const UniqueViolation: Error := OtherError("Unique constraint failed", None)
  /** What the database raises when `update`/`delete` finds no row for its key. */
  const RecordNotFound: Error := OtherError("Record to update not found", None)

  const NotParticipant := "Not a participant of this conversation"
}

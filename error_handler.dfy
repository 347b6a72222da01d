/** The application error type and the JSON error envelope built by the
    final Express error handler (src/middlewares/errorHandler.ts). */
module ErrorHandler {
  import opened Js

  /** `AppError extends Error` with optional `statusCode` and `code`. */
  datatype AppError = AppError(message: string, statusCode: Option<int>, code: Option<int>)

  /** The outcome of a service call: a value, or a thrown error. */
  datatype Result<+T> = Ok(value: T) | Err(error: AppError)

  /** `new Error(message)`: neither statusCode nor code is set. */
  function PlainError(message: string): AppError {
    AppError(message, None, None)
  }

  /** An error whose only extra field is `statusCode`. */
  function StatusError(message: string, statusCode: int): AppError {
    AppError(message, Some(statusCode), None)
  }

  const DefaultStatus := 500
  const DefaultMessage := "Internal Server Error"

  datatype ErrorBody = ErrorBody(message: string, code: int, stack: Option<string>)

  /** What `res.status(status).json({code, message, error})` sends. */
  datatype Envelope = Envelope(status: int, code: int, message: string, error: ErrorBody)

  /** The envelope for `err`. The stack trace is generated by the runtime
      and `nodeEnv` is `process.env.NODE_ENV`; both are parameters. */
  function BuildEnvelope(err: AppError, stack: Option<string>, nodeEnv: string): (e: Envelope)
    ensures e.status == e.code
    ensures e.status == (if TruthyNum(err.statusCode) then err.statusCode.value else 500)
    ensures e.error.code == (if TruthyNum(err.code) then err.code.value else 500)
    ensures e.message == e.error.message
    ensures e.message == (if err.message != "" then err.message else "Internal Server Error")
    ensures e.error.stack.Some? ==> nodeEnv == "development"
    ensures nodeEnv == "development" ==> e.error.stack == stack
  {
    var statusCode := OrNum(err.statusCode, DefaultStatus);
    var message := OrElse(Some(err.message), DefaultMessage);
    var errorCode := OrNum(err.code, DefaultStatus);
    Envelope(statusCode, statusCode, message,
      ErrorBody(message, errorCode, if nodeEnv == "development" then stack else None))
  }
}

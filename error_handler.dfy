/**
 * The Express error middleware: an ordered chain of tests on the error's name, code,
 * status code and message that chooses the status and the JSON body of the reply.
 */
module ErrorHandler {
  import opened Wrappers
  import opened Http

  /** The fields of an `AppError` the handler reads; `statusCode` and `code` are absent when unset. */
  datatype AppError = AppError(
    name: string, message: string, statusCode: Option<int>, code: Option<int>,
    errors: Option<seq<FieldError>>, stack: string)

  /** The JSON body; a field that is `undefined` in the source is `None` here and is not serialised. */
  datatype ErrorBody = ErrorBody(success: bool, message: string, errors: Option<seq<FieldError>>, stack: Option<string>)

  datatype ErrorReply = ErrorReply(status: int, body: ErrorBody)

  const ValidationMessage: string := "Doğrulama hatası"
  const DuplicateMessage: string := "Bu veri zaten mevcut (duplicate key error)"
  const InvalidTokenMessage: string := "Geçersiz token"
  const ExpiredTokenMessage: string := "Token süresi dolmuş"
  const ServerErrorMessage: string := "Sunucu hatası"
  const DuplicateKeyCode: int := 11000

  /** `new Error(message)`: the name is "Error" and no status code is set. */
  function PlainError(message: string, stack: string): AppError {
    AppError("Error", message, None, None, None, stack)
  }

  predicate IsDuplicateKey(err: AppError) {
    err.name == "MongoError" && err.code == Some(DuplicateKeyCode)
  }

  /** Errors one of the four named branches answers. */
  predicate IsNamed(err: AppError) {
    err.name == "ValidationError" || IsDuplicateKey(err) || err.name == "JsonWebTokenError" || err.name == "TokenExpiredError"
  }

  /** `err.statusCode || 500`: an unset or zero status code falls back to 500. */
  function StatusOf(err: AppError): int {
    if err.statusCode.Some? && err.statusCode.value != 0 then err.statusCode.value else 500
  }

  /** `err.message || 'Sunucu hatası'`. */
  function MessageOf(err: AppError): string {
    if err.message != "" then err.message else ServerErrorMessage
  }

  function Reply(status: int, message: string): ErrorReply {
    ErrorReply(status, ErrorBody(false, message, None, None))
  }

  /** `errorHandler`; `development` stands for `NODE_ENV === 'development'`. */
  function HandleError(err: AppError, development: bool): (r: ErrorReply)
    ensures !r.body.success
    ensures r.body.message != ""
    ensures r.status != 0
    ensures r.body.errors.Some? ==> err.name == "ValidationError"
    ensures r.body.stack.Some? <==> development && !IsNamed(err)
  {
    if err.name == "ValidationError" then
      ErrorReply(400, ErrorBody(false, ValidationMessage, err.errors, None))
    else if IsDuplicateKey(err) then Reply(409, DuplicateMessage)
    else if err.name == "JsonWebTokenError" then Reply(401, InvalidTokenMessage)
    else if err.name == "TokenExpiredError" then Reply(401, ExpiredTokenMessage)
    else
      ErrorReply(StatusOf(err), ErrorBody(false, MessageOf(err), None, if development then Some(err.stack) else None))
  }

  /** The branches are tried in a fixed order and the first that matches decides, whatever the other fields hold. */
  lemma FirstMatchDecides(err: AppError, development: bool)
    ensures err.name == "ValidationError" ==>
      HandleError(err, development) == ErrorReply(400, ErrorBody(false, ValidationMessage, err.errors, None))
    ensures IsDuplicateKey(err) ==> HandleError(err, development) == Reply(409, DuplicateMessage)
    ensures err.name == "JsonWebTokenError" ==> HandleError(err, development) == Reply(401, InvalidTokenMessage)
    ensures err.name == "TokenExpiredError" ==> HandleError(err, development) == Reply(401, ExpiredTokenMessage)
  {
  }

  /** A status of 401 comes from a token error, or from an unnamed error that carries 401 itself. */
  lemma UnauthorizedOnlyFromTokens(err: AppError, development: bool)
    ensures HandleError(err, development).status == 401 <==>
      (err.name == "JsonWebTokenError" || err.name == "TokenExpiredError")
      || (!IsNamed(err) && StatusOf(err) == 401)
  {
  }

  /** An error without a status code, such as a failed fetch or a failed summariser run, reaches the client as a 500. */
  lemma PlainErrorIsServerError(message: string, stack: string, development: bool)
    ensures HandleError(PlainError(message, stack), development).status == 500
    ensures message != "" ==> HandleError(PlainError(message, stack), development).body.message == message
    ensures message == "" ==> HandleError(PlainError(message, stack), development).body.message == ServerErrorMessage
  {
  }

  /** The stack trace is never sent outside development. */
  lemma NoStackInProduction(err: AppError)
    ensures HandleError(err, false).body.stack.None?
  {
  }

  const NotFoundPrefix: string := "Not Found - "

  /** `notFound`: the error it forwards for an unmatched URL. */
  function NotFound(originalUrl: string, stack: string): AppError {
    AppError("Error", NotFoundPrefix + originalUrl, Some(404), None, None, stack)
  }

  /** An unmatched URL is answered with 404 and a message naming it. */
  lemma NotFoundReply(originalUrl: string, stack: string, development: bool)
    ensures HandleError(NotFound(originalUrl, stack), development).status == 404
    ensures HandleError(NotFound(originalUrl, stack), development).body.message == NotFoundPrefix + originalUrl
  {
  }
}

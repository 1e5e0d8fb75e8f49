/** The error taxonomy (`AppError`, `BadRequestError`, `NotFoundError`) and the
    status/message selection of `errorMiddleware`. */
module Errors {
  import opened Wrappers

  /** A thrown value: a plain JavaScript `Error`, which carries no status code,
      or an `AppError` (or subclass) with its `name` and `statusCode`. */
  datatype Error =
    | PlainError(message: string)
    | AppError(name: string, message: string, statusCode: int)

  /** `new AppError(message, statusCode?)`: the status code defaults to 500 when
      omitted; `name` is the constructing class, here `AppError` itself. */
  function NewAppError(message: string, statusCode: Option<int>): (e: Error)
    ensures e.AppError? && e.name == "AppError" && e.message == message
    ensures statusCode.None? ==> e.statusCode == 500
    ensures statusCode.Some? ==> e.statusCode == statusCode.value
  {
    AppError("AppError", message, statusCode.GetOr(500))
  }

  /** `new BadRequestError(message?)` of the server under src/: a default
      parameter, so only an omitted message becomes "Bad request". */
  function BadRequestError(message: Option<string>): (e: Error)
    ensures e.AppError? && e.name == "BadRequestError" && e.statusCode == 400
    ensures message.None? ==> e.message == "Bad request"
    ensures message.Some? ==> e.message == message.value
  {
    AppError("BadRequestError", message.GetOr("Bad request"), 400)
  }

  /** JavaScript's `s || d` on a string that may be undefined: empty counts as absent. */
  function OrDefault(s: Option<string>, d: string): string {
    if s.Some? && s.value != "" then s.value else d
  }

  /** `new BadRequestError(message?)` of the Cloud Functions build under
      functions/: `message || "Bad request"`, so an empty message is replaced too. */
  function FunctionsBadRequestError(message: Option<string>): (e: Error)
    ensures e.AppError? && e.name == "BadRequestError" && e.statusCode == 400
    ensures e.message != ""
    ensures message.Some? && message.value != "" ==> e.message == message.value
    ensures message.None? || message == Some("") ==> e.message == "Bad request"
  {
    AppError("BadRequestError", OrDefault(message, "Bad request"), 400)
  }

  /** `new NotFoundError(message?)`: `message || 'Resource not found'`, status 404. */
  function NotFoundError(message: Option<string>): (e: Error)
    ensures e.AppError? && e.name == "NotFoundError" && e.statusCode == 404
    ensures e.message != ""
    ensures message.Some? && message.value != "" ==> e.message == message.value
    ensures message.None? || message == Some("") ==> e.message == "Resource not found"
  {
    AppError("NotFoundError", OrDefault(message, "Resource not found"), 404)
  }

  /** The two `BadRequestError` classes build the same error for every message
      except the empty one, which only the functions/ class replaces. */
  lemma BadRequestVariantsAgree(message: Option<string>)
    ensures BadRequestError(message) == FunctionsBadRequestError(message) <==> message != Some("")
    ensures BadRequestError(Some("")).message == ""
  {
  }

  /** What `errorMiddleware` sends: a status and the JSON body `{ message }`. */
  datatype Response = Response(status: int, message: string)

  /** `status = err.statusCode || 500` and `message = err.message || 'Internal Server Error'`;
      a plain `Error` has no status code. */
  function ErrorResponse(err: Error): (r: Response)
    ensures r.status != 0 && r.message != ""
    ensures err.AppError? && err.statusCode != 0 ==> r.status == err.statusCode
    ensures err.PlainError? || err.statusCode == 0 ==> r.status == 500
    ensures err.message != "" ==> r.message == err.message
    ensures err.message == "" ==> r.message == "Internal Server Error"
  {
    var status := if err.AppError? && err.statusCode != 0 then err.statusCode else 500;
    Response(status, OrDefault(Some(err.message), "Internal Server Error"))
  }

  /** Bad requests answer 400 and missing resources 404, the message passed through. */
  lemma ResponsesOfKinds(message: string)
    requires message != ""
    ensures ErrorResponse(BadRequestError(Some(message))) == Response(400, message)
    ensures ErrorResponse(FunctionsBadRequestError(Some(message))) == Response(400, message)
    ensures ErrorResponse(NotFoundError(Some(message))) == Response(404, message)
    ensures ErrorResponse(NotFoundError(None)) == Response(404, "Resource not found")
    ensures ErrorResponse(PlainError(message)) == Response(500, message)
  {
  }

  /** The response loses nothing of an application error that has a non-zero
      status and a non-empty message: equal responses mean equal status and message. */
  lemma ResponseIsLossless(e1: Error, e2: Error)
    requires e1.AppError? && e1.statusCode != 0 && e1.message != ""
    requires e2.AppError? && e2.statusCode != 0 && e2.message != ""
    ensures ErrorResponse(e1) == ErrorResponse(e2) <==>
            e1.statusCode == e2.statusCode && e1.message == e2.message
  {
  }
}

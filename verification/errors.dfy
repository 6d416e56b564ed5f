/**
 * `BusinessException`, `ErrorResponse` and `GlobalExceptionHandler`: the three
 * handlers that turn an exception escaping a controller into an HTTP status
 * and an `ErrorResponse(code, message)` body.
 */
module Errors {
  import opened Base

  /** `BusinessException(code, message)`: the service layer's checked failure. */
  datatype BusinessError = BusinessError(code: string, message: string)

  /** The JSON body of every error reply. */
  datatype ErrorResponse = ErrorResponse(code: string, message: string)

  /** A `ResponseEntity<ErrorResponse>`: the HTTP status and the body. */
  datatype Response = Response(status: int, body: ErrorResponse)

  /** The exceptions the advice distinguishes. */
  datatype Thrown =
    | Business(error: BusinessError)
      /** `MethodArgumentNotValidException`; the default message of its first field error, if it has one. */
    | InvalidArgument(firstFieldMessage: Option<string>)
      /** Any other exception; its own message never reaches the client. */
    | Unexpected

  const BadRequest := 400
  const Unauthorized := 401
  const Forbidden := 403
  const InternalServerError := 500

  const ValidationFallback := "参数校验失败"
  const SystemErrorBody := ErrorResponse("SYSTEM_ERROR", "系统错误，请联系管理员")

  /** The business codes answered with 401: the credentials name no usable account. */
  predicate IsCredentialFailure(code: string) {
    code == "USER_NOT_FOUND" || code == "INVALID_PASSWORD"
  }

  /** The `switch` on the business code in `handleBusinessException`. */
  function StatusOf(code: string): int {
    match code
    case "USER_NOT_FOUND" => Unauthorized
    case "INVALID_PASSWORD" => Unauthorized
    case "USER_DISABLED" => Forbidden
    case _ => BadRequest
  }

  /** The business status table: 401 for bad credentials, 403 for a disabled account, 400 for every other code. */
  lemma StatusTable(code: string)
    ensures StatusOf(code) == Unauthorized <==> IsCredentialFailure(code)
    ensures StatusOf(code) == Forbidden <==> code == "USER_DISABLED"
    ensures StatusOf(code) == BadRequest <==> !IsCredentialFailure(code) && code != "USER_DISABLED"
  {
  }

  /** The advice: pick the handler for the exception's kind and build the reply. */
  function Handle(t: Thrown): (r: Response)
    ensures t.Business? ==> r.body == ErrorResponse(t.error.code, t.error.message)
    ensures t.Business? ==> r.status == StatusOf(t.error.code)
    ensures t.InvalidArgument? ==> r.status == BadRequest && r.body.code == "VALIDATION_ERROR"
    ensures t.InvalidArgument? && t.firstFieldMessage.Some? ==> r.body.message == t.firstFieldMessage.value
    ensures t.InvalidArgument? && t.firstFieldMessage.None? ==> r.body.message == ValidationFallback
    ensures t.Unexpected? ==> r == Response(InternalServerError, SystemErrorBody)
  {
    match t
    case Business(e) => Response(StatusOf(e.code), ErrorResponse(e.code, e.message))
    case InvalidArgument(m) => Response(BadRequest, ErrorResponse("VALIDATION_ERROR", m.GetOr(ValidationFallback)))
    case Unexpected => Response(InternalServerError, SystemErrorBody)
  }

  /**
   * Only an unexpected exception is the server's fault: every business and
   * validation failure is answered with a 4xx status, every other one with 500.
   */
  lemma ClientErrorUnlessUnexpected(t: Thrown)
    ensures 400 <= Handle(t).status < 500 <==> !t.Unexpected?
    ensures Handle(t).status == InternalServerError <==> t.Unexpected?
  {
  }

  /** The reply to a business failure gives the client back exactly the exception's code and message. */
  lemma BusinessErrorRecovered(e: BusinessError)
    ensures BusinessError(Handle(Business(e)).body.code, Handle(Business(e)).body.message) == e
  {
  }

  /**
   * The codes thrown by the request context, the user service and the report
   * service, other than USER_NOT_FOUND, are all answered with 400; in
   * particular a missing login (UNAUTHORIZED) and a missing request context
   * (SYSTEM_ERROR) thrown as business exceptions are not 401 or 500.
   */
  lemma ServiceCodesAreBadRequests(message: string)
    ensures Handle(Business(BusinessError("UNAUTHORIZED", message))).status == BadRequest
    ensures Handle(Business(BusinessError("SYSTEM_ERROR", message))).status == BadRequest
    ensures Handle(Business(BusinessError("USER_EXISTS", message))).status == BadRequest
    ensures Handle(Business(BusinessError("REPORT_NOT_FOUND", message))).status == BadRequest
    ensures Handle(Business(BusinessError("USER_NOT_FOUND", message))).status == Unauthorized
  {
  }
}

/** The middleware that turns an exception escaping the rest of the pipeline
    into a JSON error response: a status chosen by the exception's class and an
    envelope whose detail depends on the hosting environment. */
module Middleware {
  import opened Wrappers
  import opened Models
  import opened Sqlite

  const JsonContentType := "application/json"
  const GenericErrorMessage := "An error occurred while processing your request."
  const NoStackTrace := "No stack trace available"

  /** The status of the response: 400 for validation and invalid-operation
      failures, 401 for an unauthorised access, 500 for anything else. */
  function StatusCodeFor(kind: ExceptionKind): (code: int)
    ensures code == 400 <==> kind == ValidationException || kind == InvalidOperationException
    ensures code == 401 <==> kind == UnauthorizedAccessException
    ensures code == 500 <==> !(kind in {ValidationException, InvalidOperationException, UnauthorizedAccessException})
  {
    match kind
    case ValidationException => 400
    case InvalidOperationException => 400
    case UnauthorizedAccessException => 401
    case _ => 500
  }

  /** The envelope written for `e`: never a success; in development it carries
      the exception's message and its stack trace, elsewhere a fixed message and
      no error list. */
  function ErrorEnvelope(isDevelopment: bool, e: Exception): (r: ApiResponse<()>)
    ensures !r.success && r.data.None?
    ensures isDevelopment ==> r.message == Some(e.message) && r.errors.Some? && |r.errors.value| == 1
    ensures !isDevelopment ==> r.message == Some(GenericErrorMessage) && r.errors.None?
  {
    ApiResponse(
      false,
      Some(if isDevelopment then e.message else GenericErrorMessage),
      None,
      if isDevelopment then Some([if e.stackTrace.Some? then e.stackTrace.value else NoStackTrace]) else None)
  }

  /** Outside development the envelope reveals nothing about the exception:
      any two exceptions give the same body. */
  lemma ProductionEnvelopeHidesException(e1: Exception, e2: Exception)
    ensures ErrorEnvelope(false, e1) == ErrorEnvelope(false, e2)
  {
  }

  /** In development the single error entry is the stack trace when there is
      one, and the fixed placeholder otherwise. */
  lemma DevelopmentEnvelopeCarriesTrace(e: Exception)
    ensures e.stackTrace.Some? ==> ErrorEnvelope(true, e).errors == Some([e.stackTrace.value])
    ensures e.stackTrace.None? ==> ErrorEnvelope(true, e).errors == Some([NoStackTrace])
  {
  }

  /** A request that reaches a database without the Features table ends in 500. */
  lemma MissingTableIsServerError()
    ensures StatusCodeFor(NoSuchTable.kind) == 500
  {
  }

  /** The response of the current request, as far as the handler touches it. */
  class HttpResponse {
    var contentType: string
    var statusCode: int
    /** The JSON body written so far, before serialisation. */
    var body: Option<ApiResponse<()>>

    /** A response nothing has been written to yet. */
    constructor ()
      ensures contentType == "" && statusCode == 200 && body == None
    {
      contentType, statusCode, body := "", 200, None;
    }
  }

  class GlobalExceptionHandler {
    /** `IWebHostEnvironment.IsDevelopment()`. */
    const isDevelopment: bool

    constructor (isDevelopment: bool)
      ensures this.isDevelopment == isDevelopment
    {
      this.isDevelopment := isDevelopment;
    }

    /** `InvokeAsync`: the rest of the pipeline runs first; `next` is the
        exception it threw, if any. Only a thrown exception leads to a write. */
    method Invoke(response: HttpResponse, next: Option<Exception>)
      modifies response
      ensures next.None? ==> unchanged(response)
      ensures next.Some? ==>
        && response.contentType == JsonContentType
        && response.statusCode == StatusCodeFor(next.value.kind)
        && response.body == Some(ErrorEnvelope(isDevelopment, next.value))
    {
      if next.Some? {
        HandleException(response, next.value);
      }
    }

    /** `HandleExceptionAsync`: set the content type, build the envelope, add
        the trace in development, pick the status, then write the body. */
    method HandleException(response: HttpResponse, exception: Exception)
      modifies response
      ensures response.contentType == JsonContentType
      ensures response.statusCode == StatusCodeFor(exception.kind)
      ensures response.body == Some(ErrorEnvelope(isDevelopment, exception))
    {
      response.contentType := JsonContentType;
      var envelope: ApiResponse<()> := ApiResponse(
        false, Some(if isDevelopment then exception.message else GenericErrorMessage), None, None);
      if isDevelopment {
        var trace := if exception.stackTrace.Some? then exception.stackTrace.value else NoStackTrace;
        envelope := envelope.(errors := Some([trace]));
      }
      match exception.kind {
        case ValidationException =>
          response.statusCode := 400;
        case InvalidOperationException =>
          response.statusCode := 400;
        case UnauthorizedAccessException =>
          response.statusCode := 401;
        case _ =>
          response.statusCode := 500;
      }
      response.body := Some(envelope);
    }
  }
}

/** The global exception filter: how an `HttpException` becomes the error
    envelope written to the response, and at which level it is logged. */
module ExceptionFilter {
  import opened Wrappers
  import opened Exceptions

  /** `ErrorResponse`, the body the filter writes. */
  datatype ErrorEnvelope = ErrorEnvelope(
    success: bool,
    error: string,
    statusCode: int,
    timestamp: string,
    path: string,
    details: Option<map<string, seq<string>>>)

  datatype LogLevel = Error | Warn

  /** What `catch` produces: the envelope and the level of the log line. */
  datatype Caught = Caught(envelope: ErrorEnvelope, level: LogLevel)

  const VALIDATION_FAILED: string := "Validation failed"
  const INTERNAL_ERROR_TEXT: string := "Internal server error"

  /** `getErrorMessage`: a string response verbatim; the `message` of an
      object response, the first line of a list (or "Validation failed" for
      an empty one); "Internal server error" when there is no `message`. */
  function GetErrorMessage(response: ResponseBody): (m: string)
    ensures response.Plain? ==> m == response.text
    ensures response.Fields? && response.message.None? ==> m == INTERNAL_ERROR_TEXT
    ensures response.Fields? && response.message.Some? ==>
              match response.message.value
              case Text(t) => m == t
              case Lines(ls) => m == if ls == [] then VALIDATION_FAILED else ls[0]
  {
    match response
    case Plain(text) => text
    case Fields(_, _, _, message) =>
      match message
      case Some(Text(t)) => t
      case Some(Lines(ls)) => if |ls| > 0 then ls[0] else VALIDATION_FAILED
      case None => INTERNAL_ERROR_TEXT
  }

  /** `getValidationDetails`: the list of messages under the key
      `validation`, exactly when the response is an object whose `message`
      is a list of more than one line. */
  function GetValidationDetails(response: ResponseBody): (d: Option<map<string, seq<string>>>)
    ensures d.Some? <==> response.Fields? && response.message.Some?
                         && response.message.value.Lines? && |response.message.value.lines| > 1
    ensures d.Some? ==> d.value == map["validation" := response.message.value.lines]
  {
    match response
    case Fields(_, _, _, Some(Lines(ls))) =>
      if |ls| > 1 then Some(map["validation" := ls]) else None
    case _ => None
  }

  /** The level `catch` logs at: error for a status of 500 or more, warn
      otherwise. */
  function LogLevelFor(status: int): (level: LogLevel)
    ensures level == Error <==> status >= INTERNAL_SERVER_ERROR
  {
    if status >= INTERNAL_SERVER_ERROR then Error else Warn
  }

  /** `catch`, up to the write of the response: the envelope for the
      exception, the request URL and the current time. */
  function Catch(exception: HttpException, url: string, now: string): (c: Caught)
    ensures !c.envelope.success
    ensures c.envelope.statusCode == exception.status
    ensures c.envelope.path == url && c.envelope.timestamp == now
    ensures c.envelope.error == GetErrorMessage(exception.response)
    ensures c.envelope.details == GetValidationDetails(exception.response)
    ensures c.level == LogLevelFor(exception.status)
  {
    var envelope := ErrorEnvelope(false, GetErrorMessage(exception.response), exception.status,
                                  now, url, None);
    var details := GetValidationDetails(exception.response);
    var withDetails := if details.Some? then envelope.(details := details) else envelope;
    Caught(withDetails, LogLevelFor(exception.status))
  }

  /** When the envelope lists validation details, its `error` is the first
      of them and at least one more follows. */
  lemma DetailsAgreeWithError(exception: HttpException, url: string, now: string)
    ensures var e := Catch(exception, url, now).envelope;
            e.details.Some? ==>
              && "validation" in e.details.value
              && |e.details.value["validation"]| > 1
              && e.error == e.details.value["validation"][0]
  {
  }

  // ---------------------------------------------------------------------
  // The envelope of a business exception

  /** An id in the UUID layout that no stored user need have. */
  const MissingId: string := "123e4567-e89b-42d3-a456-426614174000"

  /** As written, the envelope of every business exception says "Internal
      server error": their payload keeps its text under `error`, and the
      filter looks only at `message`. A user that is not found, looked up
      by a well-formed UUID, is answered with status 404 and that text. */
  lemma BusinessEnvelopeLosesMessage(message: string, status: Option<int>, url: string, now: string)
    ensures var e := Catch(BusinessException(message, status), url, now).envelope;
            e.error == INTERNAL_ERROR_TEXT && e.details.None?
    ensures var e := Catch(EntityNotFoundException("User", MissingId), url, now).envelope;
            e.statusCode == NOT_FOUND && e.error == INTERNAL_ERROR_TEXT
            && e.error != NotFoundMessage("User", MissingId)
  {
    assert NotFoundMessage("User", MissingId)[0] == 'U';
  }

  /** The evidently intended message: as before, but an object without
      `message` gives its `error` text when it has one. */
  function GetErrorMessageIntended(response: ResponseBody): (m: string)
    ensures response.Plain? || response.message.Some? ==> m == GetErrorMessage(response)
    ensures response.Fields? && response.message.None? ==> m == response.error.GetOr(INTERNAL_ERROR_TEXT)
  {
    match response
    case Fields(_, Some(error), _, None) => error
    case _ => GetErrorMessage(response)
  }

  /** `catch` with the intended message. */
  function CatchIntended(exception: HttpException, url: string, now: string): (c: Caught)
    ensures c.envelope.error == GetErrorMessageIntended(exception.response)
    ensures c == Catch(exception, url, now).(envelope := c.envelope)
    ensures c.envelope == Catch(exception, url, now).envelope.(error := c.envelope.error)
  {
    var c := Catch(exception, url, now);
    c.(envelope := c.envelope.(error := GetErrorMessageIntended(exception.response)))
  }

  /** With the intended message, a business exception's envelope carries
      the exception's own text and status. */
  lemma IntendedEnvelopeCarriesMessage(e: HttpException, text: string, url: string, now: string)
    requires IsBusinessPayload(e, text)
    ensures CatchIntended(e, url, now).envelope.error == text
    ensures CatchIntended(e, url, now).envelope.statusCode == e.status
  {
  }
}

/** The response interceptors of the REST axios instance: the success
    interceptor passes a response through, and `globalErrorResponseInterceptor`
    turns every failed request into one enhanced `Error` and rejects with it. */
module Http {
  import opened Wrappers
  import opened Text

  /** What reading `error.response.data.message` finds. `Unreadable` is a body
      of `null`/`undefined`, on which the property access throws; `Payload` is
      any other body, with its `message` field when that is a string. */
  datatype Body = Unreadable | Payload(message: Option<string>)

  datatype Response = Response(status: nat, data: Body)

  /** The axios error the interceptor receives. `requestSent` is whether
      `error.request` is set; `code` is `error.code`, which may be unset. */
  datatype AxiosFailure = AxiosFailure(
    response: Option<Response>,
    requestSent: bool,
    code: Option<string>,
    message: string)

  /** The `cause` attached to the enhanced error. */
  datatype Cause = Cause(
    originalError: AxiosFailure,
    httpStatus: Option<nat>,
    businessCode: Option<int>,
    isAxiosError: bool)

  /** `new Error(errorMessage)` with its `cause`. */
  datatype EnhancedError = EnhancedError(message: string, cause: Cause)

  /** How the promise returned through the interceptor chain settles. */
  datatype Settled = Resolved(response: Response) | Rejected(reason: EnhancedError)

  /** The three mutually exclusive failure classes, in priority order. */
  datatype Kind = ServerError | TransportError | ConstructionError

  const TimeoutText: string := "请求超时，请检查网络或稍后再试"
  const NetworkText: string := "网络异常，无法连接服务器"
  const UnknownText: string := "发起请求时发生未知错误"
  const StatusPrefix: string := "请求失败，状态码: "
  const AbortCode: string := "ECONNABORTED"

  /** The message synthesised from an HTTP status. */
  function StatusText(status: nat): (m: string)
    ensures IsPrefix(StatusPrefix, m)
    ensures |m| > |StatusPrefix| && AllDigits(m[|StatusPrefix|..])
    ensures ParseDecimal(m[|StatusPrefix|..]) == status
    ensures m[|StatusPrefix|] == '0' ==> m == StatusPrefix + "0"
  {
    DecimalRoundTrip(status);
    assert (StatusPrefix + DecimalString(status))[|StatusPrefix|..] == DecimalString(status);
    StatusPrefix + DecimalString(status)
  }

  /** Reads the status back out of a synthesised message. */
  function ParseStatusText(m: string): Option<nat> {
    match StripPrefix(StatusPrefix, m)
    case Some(rest) => if |rest| > 0 && AllDigits(rest) then Some(ParseDecimal(rest)) else None
    case None => None
  }

  /** The synthesised message names the status it was made from. */
  lemma StatusTextRoundTrip(status: nat)
    ensures ParseStatusText(StatusText(status)) == Some(status)
  {
    var m := StatusText(status);
    assert m[|StatusPrefix|..] == DecimalString(status);
    DecimalRoundTrip(status);
  }

  /** Which branch of the interceptor a failure takes: a response wins over a
      sent request, which wins over neither. */
  function Classify(e: AxiosFailure): (k: Kind)
    ensures k == ServerError <==> e.response.Some?
    ensures k == TransportError <==> e.response.None? && e.requestSent
    ensures k == ConstructionError <==> e.response.None? && !e.requestSent
  {
    if e.response.Some? then ServerError
    else if e.requestSent then TransportError
    else ConstructionError
  }

  /** The timeout test of the no-response branch: `error.code === 'ECONNABORTED'`
      or `error.message.includes('timeout')`. */
  function IsTimeout(e: AxiosFailure): (b: bool)
    ensures b <==> (e.code == Some(AbortCode) ||
                    exists i :: 0 <= i <= |e.message| && IsPrefix("timeout", e.message[i..]))
  {
    e.code == Some(AbortCode) || Contains(e.message, "timeout")
  }

  /** `flowResponse.message || fallback`, including the throwing access on a
      missing body caught by the `catch`. */
  function ServerMessage(r: Response): (m: string)
    ensures r.data.Payload? && r.data.message.Some? && r.data.message.value != "" ==> m == r.data.message.value
    ensures !(r.data.Payload? && r.data.message.Some? && r.data.message.value != "") ==> m == StatusText(r.status)
  {
    match r.data
    case Unreadable => StatusText(r.status)
    case Payload(msg) =>
      if msg.Some? && msg.value != "" then msg.value else StatusText(r.status)
  }

  /** The error `globalErrorResponseInterceptor` builds from `e`. */
  function Normalize(e: AxiosFailure): (r: EnhancedError)
    ensures r.cause.originalError == e && r.cause.isAxiosError
    ensures r.cause.businessCode == None
    ensures r.cause.httpStatus.Some? <==> e.response.Some?
    ensures e.response.Some? ==> r.cause.httpStatus == Some(e.response.value.status)
    ensures e.response.Some? ==> r.message == ServerMessage(e.response.value)
    ensures e.response.None? && e.requestSent ==>
      (r.message == TimeoutText <==> IsTimeout(e)) && (r.message == NetworkText <==> !IsTimeout(e))
    ensures e.response.None? && !e.requestSent ==>
      r.message == if e.message != "" then e.message else UnknownText
  {
    var status := match e.response case Some(resp) => Some(resp.status) case None => None;
    var message :=
      match Classify(e)
      case ServerError => ServerMessage(e.response.value)
      case TransportError => if IsTimeout(e) then TimeoutText else NetworkText
      case ConstructionError => if e.message != "" then e.message else UnknownText;
    EnhancedError(message, Cause(e, status, None, true))
  }

  /** The error interceptor never resolves: it always rejects with the
      normalised error. */
  function ErrorInterceptor(e: AxiosFailure): (r: Settled)
    ensures r.Rejected?
    ensures r.reason == Normalize(e)
    ensures r.reason.cause.originalError == e
  {
    Rejected(Normalize(e))
  }

  /** The pair registered with `interceptors.response.use`: a response passes
      through unchanged, a failure goes to the error interceptor. */
  function Intercept(outcome: Result<Response, AxiosFailure>): (r: Settled)
    ensures outcome.Success? <==> r.Resolved?
    ensures outcome.Success? ==> r.response == outcome.value
    ensures outcome.Failure? ==> r.reason == Normalize(outcome.error)
    ensures outcome.Failure? ==> r.reason.cause.originalError == outcome.error
  {
    match outcome
    case Success(resp) => Resolved(resp)
    case Failure(e) => ErrorInterceptor(e)
  }
}

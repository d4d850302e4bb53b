/** Properties of the error interceptor that relate several inputs, and the
    worked cases the interceptor is meant to produce. */
module HttpProperties {
  import opened Wrappers
  import opened Text
  import opened Http

  /** The response branch comes first: once a response exists, the request
      flag, the error code and the error message make no difference. */
  lemma ResponseTakesPriority(e1: AxiosFailure, e2: AxiosFailure)
    requires e1.response.Some? && e1.response == e2.response
    ensures Normalize(e1).message == Normalize(e2).message
    ensures Normalize(e1).cause.httpStatus == Normalize(e2).cause.httpStatus == Some(e1.response.value.status)
  {
  }

  /** A status is recorded exactly for the server-error class; the business
      code is never set. */
  lemma StatusOnlyForServerErrors(e: AxiosFailure)
    ensures Normalize(e).cause.httpStatus.Some? <==> Classify(e) == ServerError
    ensures Normalize(e).cause.businessCode.None?
  {
  }

  /** Without a usable body message, the message names the response status,
      and the status can be read back from it. */
  lemma FallbackNamesStatus(e: AxiosFailure)
    requires e.response.Some?
    requires !(e.response.value.data.Payload? && e.response.value.data.message.Some?
               && e.response.value.data.message.value != "")
    ensures ParseStatusText(Normalize(e).message) == Some(e.response.value.status)
  {
    StatusTextRoundTrip(e.response.value.status);
  }

  /** A timeout and a refused connection are told apart by their messages. */
  lemma TimeoutDistinctFromRefused(timedOut: AxiosFailure, refused: AxiosFailure)
    requires timedOut.response.None? && timedOut.requestSent && IsTimeout(timedOut)
    requires refused.response.None? && refused.requestSent && !IsTimeout(refused)
    ensures Normalize(timedOut).message == TimeoutText
    ensures Normalize(refused).message == NetworkText
    ensures Normalize(timedOut).message != Normalize(refused).message
  {
  }

  /** `'timeout'` anywhere in the error message marks a timeout, whatever
      the code. */
  lemma TimeoutWordAnywhere(e: AxiosFailure, before: string, after: string)
    requires e.response.None? && e.requestSent
    requires e.message == before + "timeout" + after
    ensures Normalize(e).message == TimeoutText
  {
    var i := |before|;
    assert IsPrefix("timeout", e.message[i..]) by {
      assert e.message[i..] == "timeout" + after;
    }
  }

  /** A 404 whose body carries `message: "not found"`. */
  lemma NotFoundCase()
    ensures var r := Normalize(AxiosFailure(Some(Response(404, Payload(Some("not found")))), true, Some("ERR_BAD_REQUEST"), "Request failed with status code 404"));
      r.message == "not found" && r.cause.httpStatus == Some(404)
  {
  }

  /** A 500 whose body cannot be read falls back to the status text. */
  lemma UnreadableBodyCase(data: Body)
    requires data.Unreadable? || data == Payload(None) || data == Payload(Some(""))
    ensures var r := Normalize(AxiosFailure(Some(Response(500, data)), true, None, ""));
      r.message == "请求失败，状态码: 500" && r.cause.httpStatus == Some(500)
  {
    assert DecimalString(5) == "5";
    assert DecimalString(50) == "50";
    assert DecimalString(500) == "500";
  }

  /** The timeout error axios raises after the 15 second deadline. */
  lemma DeadlineCase()
    ensures Normalize(AxiosFailure(None, true, Some("ECONNABORTED"), "timeout of 15000ms exceeded")).message == TimeoutText
  {
  }

  /** A request that could not be built reports its own error text, and the
      fixed text when that is empty. */
  lemma ConstructionCase(msg: string)
    ensures Normalize(AxiosFailure(None, false, None, msg)).message == if msg == "" then UnknownText else msg
    ensures Normalize(AxiosFailure(None, false, None, msg)).cause.httpStatus == None
  {
  }
}

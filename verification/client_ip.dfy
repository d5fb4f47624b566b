/** The `ClientIp` parameter decorator: the client address taken from the
    `x-forwarded-for` header, or from the socket address, or "unknown". */
module ClientIp {
  import opened Wrappers
  import opened JsText

  /** The two parts of the request the decorator reads: the
      `x-forwarded-for` header when it is a string, and `request.ip`. */
  datatype Request = Request(forwarded: Option<string>, ip: Option<string>)

  /** The element at index 0 of an array, `undefined` when it is empty. */
  function FirstOf(parts: seq<string>): Option<string> {
    if |parts| > 0 then Some(parts[0]) else None
  }

  /** The decorator's callback:
      `forwarded.split(',')[0]?.trim() ?? request.ip ?? 'unknown'` for a
      string header, `request.ip ?? 'unknown'` otherwise. */
  function ClientIp(request: Request): (ip: string)
    ensures request.forwarded.None? ==> ip == request.ip.GetOr("unknown")
    ensures request.forwarded.Some? ==> ',' !in ip
  {
    match request.forwarded
    case Some(header) =>
      (match FirstOf(Split(header, ','))
       case Some(first) => Trim(first)
       case None => request.ip.GetOr("unknown"))
    case None => request.ip.GetOr("unknown")
  }

  /** For a string header the address is the text before its first comma,
      trimmed. */
  lemma ForwardedAddress(header: string, socketIp: Option<string>)
    ensures var k := |Split(header, ',')[0]|;
            && (forall i :: 0 <= i < k ==> header[i] != ',')
            && (k < |header| ==> header[k] == ',')
            && ClientIp(Request(Some(header), socketIp)) == Trim(header[..k])
  {
    var first := Split(header, ',')[0];
    forall i | 0 <= i < |first| ensures header[i] != ',' {
      assert header[i] == first[i];
    }
  }

  /** The fallbacks after the trimmed first piece are never reached:
      `split` always yields a first element, so `request.ip` plays no part
      once the header is a string. */
  lemma ForwardedIgnoresSocketIp(header: string, socketIp: Option<string>)
    ensures ClientIp(Request(Some(header), socketIp)) == ClientIp(Request(Some(header), None))
  {
  }

  /** An empty header gives the empty string, not a fallback. */
  lemma EmptyForwardedHeader(socketIp: Option<string>)
    ensures ClientIp(Request(Some(""), socketIp)) == ""
  {
    assert Split("", ',') == [""];
  }
}

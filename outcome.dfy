/**
 * What a successful handshake hands back (src/flow/handshake_outcome.rs):
 * the parts of the proxy's response copied out of a complete parse, and the
 * bytes that arrived after the response head.
 */
module HandshakeOutcomes {
  import opened Io
  import opened Headers
  import opened Tokenizer

  datatype ResponseParts = ResponseParts(statusCode: u16, reasonPhrase: string, headers: HeaderMap)

  datatype HandshakeOutcome = HandshakeOutcome(responseParts: ResponseParts, dataAfterHandshake: seq<byte>)

  /** The header map built from parsed headers: one entry per parsed header, in parse order. */
  function HeadersOf(raw: seq<RawHeader>): (r: HeaderMap)
    ensures |r| == |raw|
    ensures forall i :: 0 <= i < |raw| ==> r[i].name == raw[i].name && r[i].value == raw[i].value
  {
    if raw == [] then []
    else HeadersOf(raw[..|raw| - 1]) + [Header(raw[|raw| - 1].name, raw[|raw| - 1].value)]
  }

  /**
   * The parts of a complete response. The code and reason are present and
   * every header is acceptable to the header types, or the source panics.
   */
  function PartsOf(response: Response): (r: ResponseParts)
    requires IsComplete(response)
    ensures r.statusCode == response.code.value
    ensures r.reasonPhrase == response.reason.value
    ensures |r.headers| == |response.headers|
    ensures forall i :: 0 <= i < |r.headers| ==>
              && r.headers[i].name == response.headers[i].name
              && r.headers[i].value == response.headers[i].value
              && ValidName(r.headers[i].name) && ValidValue(r.headers[i].value)
  {
    ResponseParts(response.code.value, response.reason.value, HeadersOf(response.headers))
  }

  /** `parts_from_complete_response`: copies the code and reason, then inserts each header in turn. */
  method PartsFromCompleteResponse(response: Response) returns (parts: ResponseParts)
    requires IsComplete(response)
    ensures parts == PartsOf(response)
  {
    var statusCode := response.code.value;
    var reasonPhrase := response.reason.value;
    var headers: HeaderMap := [];
    var i := 0;
    while i < |response.headers|
      invariant 0 <= i <= |response.headers|
      invariant headers == HeadersOf(response.headers[..i])
    {
      var header := response.headers[i];
      assert response.headers[..i + 1][..i] == response.headers[..i];
      headers := headers + [Header(header.name, header.value)];
      i := i + 1;
    }
    assert response.headers[..i] == response.headers;
    parts := ResponseParts(statusCode, reasonPhrase, headers);
  }

  /** `HandshakeOutcome::new`: the parts of the response, and the leftover bytes unchanged. */
  method NewHandshakeOutcome(response: Response, dataAfterHandshake: seq<byte>) returns (outcome: HandshakeOutcome)
    requires IsComplete(response)
    ensures outcome.responseParts == PartsOf(response)
    ensures outcome.dataAfterHandshake == dataAfterHandshake
  {
    var parts := PartsFromCompleteResponse(response);
    outcome := HandshakeOutcome(parts, dataAfterHandshake);
  }
}

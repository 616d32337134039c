/**
 * The crate's entry point (src/lib.rs): run the handshake over a transport,
 * then hand back the proxy's response and the transport wrapped so that its
 * first reads return the bytes that arrived after the response head.
 */
module Lib {
  import opened Io
  import opened Headers
  import opened Tokenizer
  import opened HandshakeOutcomes
  import Request
  import Flow
  import opened PrependIo

  /** `Outcome`: the parts of the proxy's response and the wrapped transport. */
  datatype Outcome = Outcome(responseParts: ResponseParts, stream: PrependIoStream)

  /**
   * `handshake_and_wrap`. A failed handshake is returned as it is and wraps
   * nothing. A successful one returns its response parts and a new wrapper
   * around the transport holding the handshake's leftover, so that the
   * wrapper's reads go on exactly where the response head ended.
   */
  method HandshakeAndWrap(stream: Duplex, host: seq<byte>, port: u16, requestHeaders: HeaderMap,
                          readBuf: array<byte>, parse: Parser) returns (r: Result<Outcome>)
    requires Sound(parse)
    modifies stream, stream.output, readBuf
    ensures var request := Request.RequestBytes(host, port, requestHeaders);
            && WroteAll(old(stream.output.data), old(stream.output.room), request,
                        stream.output.data, stream.output.room, Fits(old(stream.output.room), |request|))
            && (!Fits(old(stream.output.room), |request|) ==>
                  r == Err(WriteZero) && stream.incoming == old(stream.incoming))
    ensures stream.output.closed == old(stream.output.closed) && stream.output.flushed == old(stream.output.flushed)
    ensures var run := Flow.Receive(parse, old(stream.incoming), readBuf.Length);
            Fits(old(stream.output.room), |Request.RequestBytes(host, port, requestHeaders)|) ==>
              && stream.incoming == run.rest
              && (run.result.Err? ==> r == Err(run.result.error))
              && (run.result.Ok? ==>
                    && r.Ok?
                    && r.value.responseParts == run.result.value.responseParts
                    && fresh(r.value.stream)
                    && r.value.stream.wrapped == stream
                    && r.value.stream.readPrepend == Stored(Some(run.result.value.dataAfterHandshake))
                    && r.value.stream.Valid() && r.value.stream.delivered == [])
    ensures r.Ok? ==>
              var run := Flow.Receive(parse, old(stream.incoming), readBuf.Length);
              && parse(run.buffered).Complete?
              && var c := parse(run.buffered).consumed;
              && c <= |Flatten(old(stream.incoming))|
              && r.value.stream.Pending() == Flatten(old(stream.incoming))[c..]
  {
    ghost var incoming := stream.incoming;
    Flow.TunnelBytes(parse, incoming, readBuf.Length);
    var outcome := Flow.Handshake(stream, host, port, requestHeaders, readBuf, parse);
    if outcome.Err? {
      return Err(outcome.error);
    }
    var wrapper := new PrependIoStream(stream, Some(outcome.value.dataAfterHandshake));
    if outcome.value.dataAfterHandshake == [] {
      assert [] + Flatten(stream.incoming) == Flatten(stream.incoming);
    }
    r := Ok(Outcome(outcome.value.responseParts, wrapper));
  }

  /**
   * The end-to-end use: handshake over a transport that only delivers bytes
   * and writes into a growable buffer, read the tunnel to its end, and take
   * the transport back out. The transport's write side then holds exactly
   * the request; the tunnel gave every byte past the response head; and
   * neither a leftover nor unread transport bytes remain.
   */
  method EndToEnd(stream: Duplex, host: seq<byte>, port: u16, requestHeaders: HeaderMap,
                  readBuf: array<byte>, parse: Parser, cap: nat)
    returns (r: Result<seq<byte>>, leftover: Option<seq<byte>>)
    requires Sound(parse) && Clean(stream.incoming) && stream.output.room == None
    requires readBuf.Length > 0 && cap > 0
    modifies stream, stream.output, readBuf
    ensures stream.output.data == old(stream.output.data) + Request.RequestBytes(host, port, requestHeaders)
    ensures var run := Flow.Receive(parse, old(stream.incoming), readBuf.Length);
            && (run.result.Err? ==> r == Err(run.result.error))
            && (run.result.Ok? ==>
                  && parse(run.buffered).Complete?
                  && var c := parse(run.buffered).consumed;
                  && c <= |Flatten(old(stream.incoming))|
                  && r == Ok(Flatten(old(stream.incoming))[c..])
                  && leftover == None
                  && stream.incoming == [])
  {
    ghost var incoming := stream.incoming;
    Flow.ReceiveKeepsClean(parse, incoming, readBuf.Length);
    var request := Request.RequestBytes(host, port, requestHeaders);
    assert request[..|request|] == request;
    var wrapped := HandshakeAndWrap(stream, host, port, requestHeaders, readBuf, parse);
    if wrapped.Err? {
      return Err(wrapped.error), None;
    }
    var tunnel := wrapped.value.stream;
    r := ReadToEnd(tunnel, cap);
    var inner;
    inner, leftover := tunnel.IntoInner();
  }
}

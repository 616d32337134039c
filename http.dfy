/**
 * The older, header-less handshake of src/http.rs. Its request is a fixed
 * text template, and its receiver returns only the bytes read past the
 * response head. Both are proved to agree with the newer handshake of
 * src/flow.rs: the template is the encoder's output for an empty header map,
 * and the receiver reads the same bytes and returns the same leftover.
 */
module Http {
  import opened Io
  import opened Tokenizer
  import opened HandshakeOutcomes
  import Request
  import Flow

  /** The `format!` template: `CONNECT {host}:{port} HTTP/1.1\r\nHost: {host}:{port}\r\n\r\n`. */
  function RequestText(host: seq<byte>, port: u16): (r: seq<byte>)
    ensures |r| >= |Request.Connect| + 4 && r[..|Request.Connect|] == Request.Connect
    ensures r[|r| - 4..] == Request.Crlf + Request.Crlf
  {
    var digits := Request.Decimal(port);
    var middle := host + Request.Colon + digits + Request.Version
      + Request.HostName + host + Request.Colon + digits;
    var r := Request.Connect + host + Request.Colon + digits + Request.Version
      + Request.HostName + host + Request.Colon + digits + Request.Crlf + Request.Crlf;
    assert r == Request.Connect + middle + (Request.Crlf + Request.Crlf);
    r
  }

  /** The template is exactly what the encoder writes for an empty header map. */
  lemma TemplateIsEncoder(host: seq<byte>, port: u16)
    ensures RequestText(host, port) == Request.RequestBytes(host, port, [])
  {
    var digits := Request.Decimal(port);
    var target := Request.HostPort(host, port);
    Request.EmptyHeaderMap(host, port);
    Assoc(Request.Connect + host, Request.Colon, digits);
    Assoc(Request.Connect, host, Request.Colon + digits);
    var head := Request.Connect + target + Request.Version + Request.HostName;
    Assoc(head + host, Request.Colon, digits);
    Assoc(head, host, Request.Colon + digits);
  }

  /** The request of the test of src/http.rs. */
  lemma TemplateExample()
    ensures RequestText(Ascii("127.0.0.1"), 8080)
         == Ascii("CONNECT 127.0.0.1:8080 HTTP/1.1\r\n" + "Host: 127.0.0.1:8080\r\n" + "\r\n")
  {
    TemplateIsEncoder(Ascii("127.0.0.1"), 8080);
    Request.RequestExample();
  }

  // ---------------------------------------------------------------------
  // The receiver

  /** One parse of the bytes read so far: the leftover, an error, or `None` to read more. */
  function Decide(parse: Parser, buffered: seq<byte>): (d: Option<Result<seq<byte>>>)
    requires Sound(parse)
    ensures d.None? <==> parse(buffered).Partial?
    ensures d == Some(Err(InvalidData)) <==> parse(buffered).Malformed?
    ensures d.Some? && d.value.Ok? <==> parse(buffered).Complete?
    ensures parse(buffered).Complete? ==>
              var c := parse(buffered).consumed;
              c <= |buffered| && buffered == buffered[..c] + d.value.value
  {
    match parse(buffered)
    case Partial => None
    case Malformed => Some(Err(InvalidData))
    case Complete(consumed, _) => Some(Ok(buffered[consumed..]))
  }

  /** The carry-on loop, as in src/flow.rs; a read of zero bytes ends it with `UnexpectedEof`. */
  function CarryOn(parse: Parser, carry: seq<byte>, incoming: seq<Event>, cap: nat): (r: Flow.Run<seq<byte>>)
    requires Sound(parse)
    ensures Measure(r.rest) <= Measure(incoming)
    ensures incoming != [] && cap > 0 ==> Measure(r.rest) < Measure(incoming)
    decreases Measure(incoming)
  {
    var step := ReadFrom(incoming, cap);
    ReadFromSplit(incoming, cap);
    match step.got
    case Err(e) => Flow.Run(Err(e), carry, step.rest)
    case Ok(bytes) =>
      if bytes == [] then Flow.Run(Err(UnexpectedEof), carry, step.rest)
      else
        var buffered := carry + bytes;
        match Decide(parse, buffered)
        case None => CarryOn(parse, buffered, step.rest, cap)
        case Some(result) => Flow.Run(result, buffered, step.rest)
  }

  /** `receive_response` of src/http.rs: one read and a parse of it, then the carry-on loop. */
  function Receive(parse: Parser, incoming: seq<Event>, cap: nat): (r: Flow.Run<seq<byte>>)
    requires Sound(parse)
    ensures Measure(r.rest) <= Measure(incoming)
    ensures incoming != [] && cap > 0 ==> Measure(r.rest) < Measure(incoming)
  {
    var step := ReadFrom(incoming, cap);
    ReadFromSplit(incoming, cap);
    match step.got
    case Err(e) => Flow.Run(Err(e), [], step.rest)
    case Ok(bytes) =>
      match Decide(parse, bytes)
      case None => CarryOn(parse, bytes, step.rest, cap)
      case Some(result) => Flow.Run(result, bytes, step.rest)
  }

  /** The same reads, the same error, and as result the other's data after the handshake. */
  predicate Agree(a: Flow.Run<seq<byte>>, b: Flow.Run<HandshakeOutcome>)
  {
    && a.buffered == b.buffered
    && a.rest == b.rest
    && match b.result
       case Ok(outcome) => a.result == Ok(outcome.dataAfterHandshake)
       case Err(e) => a.result == Err(e)
  }

  /** Both receivers decide alike on the same bytes. */
  lemma DecideAgrees(parse: Parser, buffered: seq<byte>)
    requires Sound(parse)
    ensures Decide(parse, buffered).None? <==> Flow.Decide(parse, buffered).None?
    ensures Decide(parse, buffered).Some? ==>
              Agree(Flow.Run(Decide(parse, buffered).value, buffered, []),
                    Flow.Run(Flow.Decide(parse, buffered).value, buffered, []))
  {
  }

  lemma {:induction false} CarryOnAgrees(parse: Parser, carry: seq<byte>, incoming: seq<Event>, cap: nat)
    requires Sound(parse)
    ensures Agree(CarryOn(parse, carry, incoming, cap), Flow.CarryOn(parse, carry, incoming, cap))
    decreases Measure(incoming)
  {
    var step := ReadFrom(incoming, cap);
    ReadFromSplit(incoming, cap);
    if step.got.Ok? && step.got.value != [] {
      var buffered := carry + step.got.value;
      DecideAgrees(parse, buffered);
      if Decide(parse, buffered).None? {
        CarryOnAgrees(parse, buffered, step.rest, cap);
      }
    }
  }

  /**
   * The older receiver reads exactly what the newer one reads, fails alike,
   * and on success returns the newer one's data after the handshake.
   */
  lemma ReceiveAgrees(parse: Parser, incoming: seq<Event>, cap: nat)
    requires Sound(parse)
    ensures Agree(Receive(parse, incoming, cap), Flow.Receive(parse, incoming, cap))
  {
    var step := ReadFrom(incoming, cap);
    if step.got.Ok? {
      DecideAgrees(parse, step.got.value);
      if Decide(parse, step.got.value).None? {
        CarryOnAgrees(parse, step.got.value, step.rest, cap);
      }
    }
  }

  /**
   * The leftover, then everything the transport still holds, is the
   * transport's byte stream from the end of the head on.
   */
  lemma TunnelBytes(parse: Parser, incoming: seq<Event>, cap: nat)
    requires Sound(parse)
    ensures var run := Receive(parse, incoming, cap);
            && Flatten(incoming) == run.buffered + Flatten(run.rest)
            && (run.result.Ok? ==>
                  && parse(run.buffered).Complete?
                  && var c := parse(run.buffered).consumed;
                  && c <= |Flatten(incoming)|
                  && run.result.value + Flatten(run.rest) == Flatten(incoming)[c..])
  {
    ReceiveAgrees(parse, incoming, cap);
    Flow.ReceiveBuffer(parse, incoming, cap);
    Flow.TunnelBytes(parse, incoming, cap);
  }

  /** The happy path: a first read holding the whole head returns its tail after one read. */
  lemma HappyPath(parse: Parser, incoming: seq<Event>, cap: nat)
    requires Sound(parse)
    requires ReadFrom(incoming, cap).got.Ok?
    requires parse(ReadFrom(incoming, cap).got.value).Complete?
    ensures var first := ReadFrom(incoming, cap);
            var bytes := first.got.value;
            Receive(parse, incoming, cap) == Flow.Run(Ok(bytes[parse(bytes).consumed..]), bytes, first.rest)
  {
  }

  /** A malformed head or a failed read ends the receive; later events stay in the transport. */
  lemma ReceiveStops(parse: Parser, incoming: seq<Event>, more: seq<Event>, cap: nat)
    requires Sound(parse) && incoming != []
    requires Receive(parse, incoming, cap).result != Err(UnexpectedEof)
    ensures var run := Receive(parse, incoming, cap);
            Receive(parse, incoming + more, cap) == Flow.Run(run.result, run.buffered, run.rest + more)
  {
    ReceiveAgrees(parse, incoming, cap);
    ReceiveAgrees(parse, incoming + more, cap);
    Flow.ReceiveStops(parse, incoming, more, cap);
  }

  /** The small read buffer test of src/http.rs: `(cap - L % cap) % cap` bytes of tunnel data are left over. */
  lemma SmallReadBuffer(parse: Parser, head: seq<byte>, tunnel: seq<byte>, response: Response, cap: nat)
    requires Sound(parse) && Flow.CompletesAt(parse, head + tunnel, |head|, response)
    requires 0 < cap <= |tunnel| && |head| > 0
    ensures Receive(parse, [Data(head + tunnel)], cap).result == Ok(tunnel[..(cap - |head| % cap) % cap])
  {
    ReceiveAgrees(parse, [Data(head + tunnel)], cap);
    Flow.SmallReadBuffer(parse, head, tunnel, response, cap);
  }

  /**
   * The older receiver is as indifferent to the chunking: the leftover,
   * then what the transport still holds, is the stream after the head.
   */
  lemma AnyChunking(parse: Parser, incoming: seq<Event>, headLength: nat, response: Response, cap: nat)
    requires Sound(parse) && Clean(incoming) && cap > 0
    requires Flow.CompletesAt(parse, Flatten(incoming), headLength, response)
    requires headLength <= |Flatten(incoming)|
    ensures var run := Receive(parse, incoming, cap);
            && run.result.Ok?
            && run.result.value + Flatten(run.rest) == Flatten(incoming)[headLength..]
  {
    ReceiveAgrees(parse, incoming, cap);
    Flow.AnyChunking(parse, incoming, headLength, response, cap);
  }

  // ---------------------------------------------------------------------
  // The steps, run over a transport

  /** `send_request`: the template, written with one `write_all`. */
  method SendRequest(stream: Duplex, host: seq<byte>, port: u16) returns (r: Result<()>)
    modifies stream.output
    ensures WroteAll(old(stream.output.data), old(stream.output.room), RequestText(host, port),
                     stream.output.data, stream.output.room, r.Ok?)
    ensures r.Err? ==> r.error == WriteZero
    ensures stream.output.closed == old(stream.output.closed) && stream.output.flushed == old(stream.output.flushed)
  {
    var writeBuf := RequestText(host, port);
    r := stream.output.WriteAll(writeBuf);
  }

  /** `receive_response`, with the read buffer `readBuf` overwritten by every read. */
  method ReceiveResponse(stream: Duplex, readBuf: array<byte>, parse: Parser) returns (r: Result<seq<byte>>)
    requires Sound(parse)
    modifies stream, readBuf
    ensures var run := Receive(parse, old(stream.incoming), readBuf.Length);
            r == run.result && stream.incoming == run.rest
  {
    ghost var goal := Receive(parse, stream.incoming, readBuf.Length);
    ghost var before := stream.incoming;
    var total := stream.Read(readBuf);
    if total.Err? {
      return Err(total.error);
    }
    var buf := readBuf[..total.value];
    assert buf == ReadFrom(before, readBuf.Length).got.value;
    var status := parse(buf);
    if status.Malformed? {
      return Err(InvalidData);
    } else if status.Complete? {
      return Ok(buf[status.consumed..]);
    }
    var carryOnBuf := buf;
    while true
      invariant CarryOn(parse, carryOnBuf, stream.incoming, readBuf.Length) == goal
      decreases Measure(stream.incoming)
    {
      before := stream.incoming;
      ReadFromSplit(before, readBuf.Length);
      total := stream.Read(readBuf);
      if total.Err? {
        return Err(total.error);
      }
      if total.value == 0 {
        return Err(UnexpectedEof);
      }
      assert readBuf[..total.value] == ReadFrom(before, readBuf.Length).got.value;
      carryOnBuf := carryOnBuf + readBuf[..total.value];
      status := parse(carryOnBuf);
      if status.Malformed? {
        return Err(InvalidData);
      } else if status.Complete? {
        return Ok(carryOnBuf[status.consumed..]);
      }
    }
  }

  /** `handshake`: send the template, and only if that succeeds, receive the response. */
  method Handshake(stream: Duplex, host: seq<byte>, port: u16, readBuf: array<byte>, parse: Parser)
    returns (r: Result<seq<byte>>)
    requires Sound(parse)
    modifies stream, stream.output, readBuf
    ensures var sent := Fits(old(stream.output.room), |RequestText(host, port)|);
            && WroteAll(old(stream.output.data), old(stream.output.room), RequestText(host, port),
                        stream.output.data, stream.output.room, sent)
            && (!sent ==> r == Err(WriteZero) && stream.incoming == old(stream.incoming))
            && (sent ==> var run := Receive(parse, old(stream.incoming), readBuf.Length);
                         r == run.result && stream.incoming == run.rest)
    ensures stream.output.closed == old(stream.output.closed) && stream.output.flushed == old(stream.output.flushed)
  {
    var sent := SendRequest(stream, host, port);
    if sent.Err? {
      return Err(sent.error);
    }
    r := ReceiveResponse(stream, readBuf, parse);
  }
}

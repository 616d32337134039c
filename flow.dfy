/**
 * The handshake of src/flow.rs: send the CONNECT request as one buffer,
 * then read the proxy's response head, returning its parts and whatever
 * bytes arrived after it.
 *
 * `Receive` and `CarryOn` say what `receive_response` does to a transport
 * whose reads are given as events; the methods run the same steps over a
 * `Duplex` and a read buffer and are proved to agree with them.
 */
module Flow {
  import opened Io
  import opened Headers
  import opened Tokenizer
  import opened HandshakeOutcomes
  import Request

  /** How a receive ends: its result, every byte it read, and what the transport still holds. */
  datatype Run<T> = Run(result: Result<T>, buffered: seq<byte>, rest: seq<Event>)

  /** One parse of the bytes read so far: an outcome, an error, or `None` to read more. */
  function Decide(parse: Parser, buffered: seq<byte>): (d: Option<Result<HandshakeOutcome>>)
    requires Sound(parse)
    ensures d.None? <==> parse(buffered).Partial?
    ensures d == Some(Err(InvalidData)) <==> parse(buffered).Malformed?
    ensures d.Some? && d.value.Ok? <==> parse(buffered).Complete?
    ensures parse(buffered).Complete? ==>
              var c := parse(buffered).consumed;
              && c <= |buffered|
              && d.value.value.responseParts == PartsOf(parse(buffered).response)
              && buffered == buffered[..c] + d.value.value.dataAfterHandshake
  {
    match parse(buffered)
    case Partial => None
    case Malformed => Some(Err(InvalidData))
    case Complete(consumed, response) =>
      Some(Ok(HandshakeOutcome(PartsOf(response), buffered[consumed..])))
  }

  /** What a receive that stopped at `buffered` returns, when it stopped on a parse. */
  ghost predicate Decided(parse: Parser, run: Run<HandshakeOutcome>)
    requires Sound(parse)
  {
    Decide(parse, run.buffered) == Some(run.result)
  }

  /**
   * The carry-on loop: read, append to the carry-on buffer, and parse the
   * whole buffer again from its first byte, until the parse decides.
   * A read of zero bytes ends the loop with `UnexpectedEof`.
   */
  function CarryOn(parse: Parser, carry: seq<byte>, incoming: seq<Event>, cap: nat): (r: Run<HandshakeOutcome>)
    requires Sound(parse)
    ensures Measure(r.rest) <= Measure(incoming)
    ensures incoming != [] && cap > 0 ==> Measure(r.rest) < Measure(incoming)
    decreases Measure(incoming)
  {
    var step := ReadFrom(incoming, cap);
    ReadFromSplit(incoming, cap);
    match step.got
    case Err(e) => Run(Err(e), carry, step.rest)
    case Ok(bytes) =>
      if bytes == [] then Run(Err(UnexpectedEof), carry, step.rest)
      else
        var buffered := carry + bytes;
        match Decide(parse, buffered)
        case None => CarryOn(parse, buffered, step.rest, cap)
        case Some(result) => Run(result, buffered, step.rest)
  }

  /** `receive_response`: one read and a parse of it, then the carry-on loop if the head is incomplete. */
  function Receive(parse: Parser, incoming: seq<Event>, cap: nat): (r: Run<HandshakeOutcome>)
    requires Sound(parse)
    ensures Measure(r.rest) <= Measure(incoming)
    ensures incoming != [] && cap > 0 ==> Measure(r.rest) < Measure(incoming)
  {
    var step := ReadFrom(incoming, cap);
    ReadFromSplit(incoming, cap);
    match step.got
    case Err(e) => Run(Err(e), [], step.rest)
    case Ok(bytes) =>
      match Decide(parse, bytes)
      case None => CarryOn(parse, bytes, step.rest, cap)
      case Some(result) => Run(result, bytes, step.rest)
  }

  // ---------------------------------------------------------------------
  // Properties of the receiver

  /** One turn of the carry-on loop: it goes on with the bytes read appended, or stops with them. */
  lemma CarryOnTurn(parse: Parser, carry: seq<byte>, incoming: seq<Event>, cap: nat)
    requires Sound(parse)
    ensures var step, run := ReadFrom(incoming, cap), CarryOn(parse, carry, incoming, cap);
            var read := if step.got.Ok? then step.got.value else [];
            if step.got.Ok? && read != [] && Decide(parse, carry + read).None? then
              run == CarryOn(parse, carry + read, step.rest, cap)
            else
              && run.buffered == carry + read
              && run.rest == step.rest
              && (run.result.Ok? ==> Decided(parse, run))
  {
    var step := ReadFrom(incoming, cap);
    if step.got.Ok? && step.got.value == [] {
      assert carry + [] == carry;
    }
  }

  /**
   * The carry-on buffer is the concatenation of all reads: no byte is lost,
   * duplicated or reordered between the transport and the buffer.
   */
  lemma {:induction false} CarryOnBuffer(parse: Parser, carry: seq<byte>, incoming: seq<Event>, cap: nat)
    requires Sound(parse)
    ensures var run := CarryOn(parse, carry, incoming, cap);
            carry + Flatten(incoming) == run.buffered + Flatten(run.rest)
    decreases Measure(incoming)
  {
    var step := ReadFrom(incoming, cap);
    var read := if step.got.Ok? then step.got.value else [];
    ReadFromSplit(incoming, cap);
    CarryOnTurn(parse, carry, incoming, cap);
    Assoc(carry, read, Flatten(step.rest));
    if step.got.Ok? && read != [] && Decide(parse, carry + read).None? {
      CarryOnBuffer(parse, carry + read, step.rest, cap);
    }
  }

  /** A successful carry-on loop returns what the parse of its whole buffer decides. */
  lemma {:induction false} CarryOnDecided(parse: Parser, carry: seq<byte>, incoming: seq<Event>, cap: nat)
    requires Sound(parse)
    ensures var run := CarryOn(parse, carry, incoming, cap);
            run.result.Ok? ==> Decided(parse, run)
    decreases Measure(incoming)
  {
    var step := ReadFrom(incoming, cap);
    var read := if step.got.Ok? then step.got.value else [];
    ReadFromSplit(incoming, cap);
    CarryOnTurn(parse, carry, incoming, cap);
    if step.got.Ok? && read != [] && Decide(parse, carry + read).None? {
      CarryOnDecided(parse, carry + read, step.rest, cap);
    }
  }

  /**
   * All bytes read, followed by what the transport still holds, are the
   * transport's bytes, and a successful receive returns what the parse of
   * all bytes read decides.
   */
  lemma ReceiveBuffer(parse: Parser, incoming: seq<Event>, cap: nat)
    requires Sound(parse)
    ensures var run := Receive(parse, incoming, cap);
            && Flatten(incoming) == run.buffered + Flatten(run.rest)
            && (run.result.Ok? ==> Decided(parse, run))
  {
    var step := ReadFrom(incoming, cap);
    ReadFromSplit(incoming, cap);
    if step.got.Ok? && Decide(parse, step.got.value).None? {
      CarryOnBuffer(parse, step.got.value, step.rest, cap);
      CarryOnDecided(parse, step.got.value, step.rest, cap);
    }
  }

  /** A decided run splits what it read into the head the parse consumed and the data after it. */
  lemma DecidedSplit(parse: Parser, all: seq<byte>, run: Run<HandshakeOutcome>)
    requires Sound(parse)
    requires all == run.buffered + Flatten(run.rest)
    requires run.result.Ok? && Decided(parse, run)
    ensures parse(run.buffered).Complete?
    ensures var c := parse(run.buffered).consumed;
            && c <= |all|
            && run.result.value.dataAfterHandshake + Flatten(run.rest) == all[c..]
  {
    var c := parse(run.buffered).consumed;
    var data := run.result.value.dataAfterHandshake;
    assert run.buffered == run.buffered[..c] + data;
    assert all == run.buffered[..c] + (data + Flatten(run.rest));
  }

  /**
   * The bytes the tunnel goes on with: what was read past the head, then
   * everything the transport still holds, is the transport's whole byte
   * stream from the end of the head on.
   */
  lemma TunnelBytes(parse: Parser, incoming: seq<Event>, cap: nat)
    requires Sound(parse)
    ensures var run := Receive(parse, incoming, cap);
            run.result.Ok? ==>
              && parse(run.buffered).Complete?
              && var c := parse(run.buffered).consumed;
              && c <= |Flatten(incoming)|
              && run.result.value.dataAfterHandshake + Flatten(run.rest) == Flatten(incoming)[c..]
  {
    var run := Receive(parse, incoming, cap);
    ReceiveBuffer(parse, incoming, cap);
    if run.result.Ok? {
      DecidedSplit(parse, Flatten(incoming), run);
    }
  }

  /** The happy path: a first read holding the whole head takes exactly that one read. */
  lemma HappyPath(parse: Parser, incoming: seq<Event>, cap: nat)
    requires Sound(parse)
    requires ReadFrom(incoming, cap).got.Ok?
    requires parse(ReadFrom(incoming, cap).got.value).Complete?
    ensures var first := ReadFrom(incoming, cap);
            var bytes := first.got.value;
            var c := parse(bytes).consumed;
            Receive(parse, incoming, cap)
              == Run(Ok(HandshakeOutcome(PartsOf(parse(bytes).response), bytes[c..])), bytes, first.rest)
  {
  }

  /** On a transport that only delivers bytes, a carry-on loop ends on a parse or at the end of the stream. */
  lemma {:induction false} CarryOnClean(parse: Parser, carry: seq<byte>, incoming: seq<Event>, cap: nat)
    requires Sound(parse) && Clean(incoming) && cap > 0
    requires parse(carry).Partial?
    ensures var run := CarryOn(parse, carry, incoming, cap);
            || Decided(parse, run)
            || (run.result == Err(UnexpectedEof) && run.rest == [] && parse(run.buffered).Partial?)
    decreases Measure(incoming)
  {
    ReadClean(incoming, cap);
    var step := ReadFrom(incoming, cap);
    var bytes := step.got.value;
    if bytes != [] && parse(carry + bytes).Partial? {
      CarryOnClean(parse, carry + bytes, step.rest, cap);
    }
  }

  /** On a transport that only delivers bytes, a receive ends on a parse or at the end of the stream. */
  lemma ReceiveCleanEnds(parse: Parser, incoming: seq<Event>, cap: nat)
    requires Sound(parse) && Clean(incoming) && cap > 0
    ensures var run := Receive(parse, incoming, cap);
            || Decided(parse, run)
            || (run.result == Err(UnexpectedEof) && run.rest == [] && parse(run.buffered).Partial?)
  {
    ReadClean(incoming, cap);
    var step := ReadFrom(incoming, cap);
    var bytes := step.got.value;
    if parse(bytes).Partial? {
      CarryOnClean(parse, bytes, step.rest, cap);
    }
  }

  /** The transport a carry-on loop leaves behind still only delivers bytes. */
  lemma {:induction false} CarryOnKeepsClean(parse: Parser, carry: seq<byte>, incoming: seq<Event>, cap: nat)
    requires Sound(parse) && Clean(incoming) && cap > 0
    ensures Clean(CarryOn(parse, carry, incoming, cap).rest)
    decreases Measure(incoming)
  {
    ReadClean(incoming, cap);
    ReadFromSplit(incoming, cap);
    var step := ReadFrom(incoming, cap);
    var bytes := step.got.value;
    if bytes != [] && Decide(parse, carry + bytes).None? {
      CarryOnKeepsClean(parse, carry + bytes, step.rest, cap);
    }
  }

  /** The transport a receive leaves behind still only delivers bytes. */
  lemma ReceiveKeepsClean(parse: Parser, incoming: seq<Event>, cap: nat)
    requires Sound(parse) && Clean(incoming) && cap > 0
    ensures Clean(Receive(parse, incoming, cap).rest)
  {
    ReadClean(incoming, cap);
    var step := ReadFrom(incoming, cap);
    if Decide(parse, step.got.value).None? {
      CarryOnKeepsClean(parse, step.got.value, step.rest, cap);
    }
  }

  /** How a run that ended on a parse, or on the end of the stream, reports the tokenizer's verdict. */
  lemma Verdict(parse: Parser, all: seq<byte>, run: Run<HandshakeOutcome>)
    requires Sound(parse)
    requires all == run.buffered + Flatten(run.rest)
    requires || Decided(parse, run)
             || (run.result == Err(UnexpectedEof) && run.rest == [] && parse(run.buffered).Partial?)
    ensures run.result.Ok? <==> parse(run.buffered).Complete?
    ensures run.result == Err(InvalidData) <==> parse(run.buffered).Malformed?
    ensures run.result == Err(UnexpectedEof) <==> parse(run.buffered).Partial?
    ensures parse(run.buffered).Partial? ==> run.buffered == all
  {
    if !Decided(parse, run) {
      assert run.buffered + [] == run.buffered;
    }
  }

  /**
   * Without read failures, the receiver's verdict is the tokenizer's verdict
   * on all bytes read: a complete head gives the outcome, a malformed one
   * `InvalidData`, and an incomplete one means the stream ended.
   */
  lemma ReceiveClean(parse: Parser, incoming: seq<Event>, cap: nat)
    requires Sound(parse) && Clean(incoming) && cap > 0
    ensures var run := Receive(parse, incoming, cap);
            && (run.result.Ok? <==> parse(run.buffered).Complete?)
            && (run.result == Err(InvalidData) <==> parse(run.buffered).Malformed?)
            && (run.result == Err(UnexpectedEof) <==> parse(run.buffered).Partial?)
            && (parse(run.buffered).Partial? ==> run.buffered == Flatten(incoming))
  {
    var run := Receive(parse, incoming, cap);
    ReceiveCleanEnds(parse, incoming, cap);
    ReceiveBuffer(parse, incoming, cap);
    Verdict(parse, Flatten(incoming), run);
  }

  lemma ReadFromAppend(events: seq<Event>, more: seq<Event>, cap: nat)
    requires events != []
    ensures ReadFrom(events + more, cap)
         == Read(ReadFrom(events, cap).got, ReadFrom(events, cap).rest + more)
  {
    assert (events + more)[0] == events[0];
    assert (events + more)[1..] == events[1..] + more;
    if events[0].Data? {
      var d := events[0].bytes;
      var k := Min(cap, |d|);
      if k < |d| {
        assert [Data(d[k..])] + (events[1..] + more) == [Data(d[k..])] + events[1..] + more;
      }
    }
  }

  /** The carry-on loop reads nothing past the read it stops on. */
  lemma {:induction false} CarryOnStops(parse: Parser, carry: seq<byte>, incoming: seq<Event>, more: seq<Event>, cap: nat)
    requires Sound(parse)
    requires CarryOn(parse, carry, incoming, cap).result != Err(UnexpectedEof)
    ensures var run := CarryOn(parse, carry, incoming, cap);
            CarryOn(parse, carry, incoming + more, cap) == Run(run.result, run.buffered, run.rest + more)
    decreases Measure(incoming)
  {
    ReadFromAppend(incoming, more, cap);
    var step := ReadFrom(incoming, cap);
    if step.got.Ok? && step.got.value != [] && Decide(parse, carry + step.got.value).None? {
      CarryOnStops(parse, carry + step.got.value, step.rest, more, cap);
    }
  }

  /**
   * Once the receiver has decided, or a read has failed, it reads no
   * further: bytes the transport would deliver later stay in the transport.
   */
  lemma ReceiveStops(parse: Parser, incoming: seq<Event>, more: seq<Event>, cap: nat)
    requires Sound(parse) && incoming != []
    requires Receive(parse, incoming, cap).result != Err(UnexpectedEof)
    ensures var run := Receive(parse, incoming, cap);
            Receive(parse, incoming + more, cap) == Run(run.result, run.buffered, run.rest + more)
  {
    ReadFromAppend(incoming, more, cap);
    var step := ReadFrom(incoming, cap);
    if step.got.Ok? && Decide(parse, step.got.value).None? {
      CarryOnStops(parse, step.got.value, step.rest, more, cap);
    }
  }

  /**
   * A tokenizer that, on the prefixes of `whole`, completes once it has the
   * first `headLength` bytes and not before. It stands for `httparse` on a
   * stream that starts with a response head of that length.
   */
  ghost predicate CompletesAt(parse: Parser, whole: seq<byte>, headLength: nat, response: Response)
  {
    && IsComplete(response)
    && forall n :: 0 <= n <= |whole| ==>
      parse(Prefix(whole, n)) == if n >= headLength then Complete(headLength, response) else Partial
  }

  /** The first `n` bytes; named so that facts about every prefix are used only where asked for. */
  function Prefix(whole: seq<byte>, n: nat): seq<byte>
    requires n <= |whole|
  {
    whole[..n]
  }

  /** A read of `cap` bytes from a single chunk holding more than that. */
  lemma ChunkRead(whole: seq<byte>, m: nat, cap: nat)
    requires m + cap < |whole|
    ensures ReadFrom([Data(whole[m..])], cap) == Read(Ok(whole[m..m + cap]), [Data(whole[m + cap..])])
  {
    var d := whole[m..];
    assert [Data(d)][1..] == [];
    assert d[..cap] == whole[m..m + cap] && d[cap..] == whole[m + cap..];
  }

  lemma {:induction false} MulAtLeast(d: nat, cap: nat)
    requires d >= 1
    ensures d * cap >= cap
  {
    if d > 1 {
      MulAtLeast(d - 1, cap);
      assert d * cap == (d - 1) * cap + cap;
    }
  }

  /** A remainder is determined by any quotient-and-remainder split. */
  lemma ModUnique(a: nat, cap: nat, q: nat, r: nat)
    requires 0 < cap && r < cap && a == q * cap + r
    ensures a % cap == r
  {
    var q', r' := a / cap, a % cap;
    if q > q' {
      var d := q - q';
      assert q * cap == q' * cap + d * cap;
      MulAtLeast(d, cap);
    } else if q < q' {
      var d := q' - q;
      assert q' * cap == q * cap + d * cap;
      MulAtLeast(d, cap);
    }
  }

  /** Where the read that completes a head of length `L` ends, reading `cap` bytes at a time from `m`. */
  function LastReadEnd(m: nat, L: nat, cap: nat): (e: nat)
    requires 0 < cap && m < L
    ensures L <= e < L + cap
    decreases L - m
  {
    if m + cap >= L then m + cap else LastReadEnd(m + cap, L, cap)
  }

  lemma LastReadEndStep(m: nat, L: nat, cap: nat)
    requires 0 < cap && m + cap < L
    ensures LastReadEnd(m, L, cap) == LastReadEnd(m + cap, L, cap)
  {
  }

  lemma LastReadEndLast(m: nat, L: nat, cap: nat)
    requires 0 < cap && m < L <= m + cap
    ensures LastReadEnd(m, L, cap) == m + cap
  {
  }

  /** The reads from `m` to the end of the last one cover a whole number of buffers. */
  lemma {:induction false} WholeReads(m: nat, L: nat, cap: nat) returns (k: nat)
    requires 0 < cap && m < L
    ensures LastReadEnd(m, L, cap) == m + k * cap
    decreases L - m
  {
    if m + cap >= L {
      k := 1;
    } else {
      var k' := WholeReads(m + cap, L, cap);
      k := k' + 1;
      assert k * cap == k' * cap + cap;
    }
  }

  /** Reading `cap` bytes at a time from the start, the last read overshoots a head of length `L` by `(cap - L % cap) % cap` bytes. */
  lemma Overshoot(L: nat, cap: nat)
    requires 0 < cap && 0 < L
    ensures LastReadEnd(0, L, cap) - L == (cap - L % cap) % cap
  {
    var k := WholeReads(0, L, cap);
    var p := LastReadEnd(0, L, cap) - L;
    assert L + p == k * cap;
    if p == 0 {
      ModUnique(L, cap, k, 0);
      ModUnique(cap, cap, 1, 0);
    } else {
      MulAtLeast(k, cap);
      assert L == (k - 1) * cap + (cap - p);
      ModUnique(L, cap, k - 1, cap - p);
      ModUnique(p, cap, 0, p);
    }
  }

  lemma CompletesAtApply(parse: Parser, whole: seq<byte>, headLength: nat, response: Response, n: nat)
    requires CompletesAt(parse, whole, headLength, response) && n <= |whole|
    ensures parse(whole[..n]) == if n >= headLength then Complete(headLength, response) else Partial
  {
    assert Prefix(whole, n) == whole[..n];
  }

  /** The carry-on loop over a single chunk holding `whole` from offset `m` on, with `whole[..m]` carried. */
  ghost function ChunkRun(parse: Parser, whole: seq<byte>, m: nat, cap: nat): Run<HandshakeOutcome>
    requires Sound(parse) && m < |whole|
  {
    CarryOn(parse, whole[..m], [Data(whole[m..])], cap)
  }

  /** The turn of the carry-on loop over one chunk that reads the end of the head. */
  lemma ChunkLast(parse: Parser, whole: seq<byte>, headLength: nat, response: Response, m: nat, cap: nat, end: nat)
    requires Sound(parse) && CompletesAt(parse, whole, headLength, response)
    requires 0 < cap && m < headLength <= m + cap < |whole|
    requires end == LastReadEnd(m, headLength, cap)
    ensures headLength <= end <= |whole|
    ensures ChunkRun(parse, whole, m, cap).result == Ok(HandshakeOutcome(PartsOf(response), whole[headLength..end]))
  {
    LastReadEndLast(m, headLength, cap);
    ChunkRead(whole, m, cap);
    var next := whole[..m + cap];
    assert whole[..m] + whole[m..m + cap] == next;
    CompletesAtApply(parse, whole, headLength, response, m + cap);
    assert next[headLength..] == whole[headLength..m + cap];
    CarryOnDecides(parse, whole[..m], [Data(whole[m..])], cap, whole[m..m + cap], [Data(whole[m + cap..])],
                   Ok(HandshakeOutcome(PartsOf(response), whole[headLength..end])));
  }

  /** A read of some bytes on which the parse decides ends the carry-on loop with that decision. */
  lemma CarryOnDecides(parse: Parser, carry: seq<byte>, incoming: seq<Event>, cap: nat,
                       bytes: seq<byte>, rest: seq<Event>, result: Result<HandshakeOutcome>)
    requires Sound(parse)
    requires ReadFrom(incoming, cap) == Read(Ok(bytes), rest) && bytes != []
    requires Decide(parse, carry + bytes) == Some(result)
    ensures CarryOn(parse, carry, incoming, cap).result == result
  {
  }

  /** The carry-on loop over one chunk, `cap` bytes at a time, from offset `m` on, ends with the read that ends at `end`. */
  lemma {:induction false} CarryOnChunked(parse: Parser, whole: seq<byte>, headLength: nat, response: Response,
                                          m: nat, cap: nat, end: nat)
    requires Sound(parse) && CompletesAt(parse, whole, headLength, response)
    requires 0 < cap && m < headLength && headLength + cap <= |whole|
    requires end == LastReadEnd(m, headLength, cap)
    ensures headLength <= end <= |whole|
    ensures ChunkRun(parse, whole, m, cap).result == Ok(HandshakeOutcome(PartsOf(response), whole[headLength..end]))
    decreases headLength - m, 1
  {
    if m + cap < headLength {
      ChunkTurn(parse, whole, headLength, response, m, cap, end);
    } else {
      ChunkLast(parse, whole, headLength, response, m, cap, end);
    }
  }

  /** A turn of the carry-on loop that reads `cap` bytes short of the end of the head, and the turns after it. */
  lemma {:induction false} ChunkTurn(parse: Parser, whole: seq<byte>, headLength: nat, response: Response,
                                     m: nat, cap: nat, end: nat)
    requires Sound(parse) && CompletesAt(parse, whole, headLength, response)
    requires 0 < cap && m + cap < headLength && headLength + cap <= |whole|
    requires end == LastReadEnd(m, headLength, cap)
    ensures headLength <= end <= |whole|
    ensures ChunkRun(parse, whole, m, cap).result == Ok(HandshakeOutcome(PartsOf(response), whole[headLength..end]))
    decreases headLength - m, 0
  {
    LastReadEndStep(m, headLength, cap);
    CarryOnChunked(parse, whole, headLength, response, m + cap, cap, end);
    ChunkPartial(parse, whole, headLength, response, m, cap);
  }

  /** A read that ends short of the head leaves the parse partial: the loop goes on from `m + cap`. */
  lemma ChunkPartial(parse: Parser, whole: seq<byte>, headLength: nat, response: Response, m: nat, cap: nat)
    requires Sound(parse) && CompletesAt(parse, whole, headLength, response)
    requires 0 < cap && m + cap < headLength <= |whole|
    ensures ChunkRun(parse, whole, m, cap).result == ChunkRun(parse, whole, m + cap, cap).result
  {
    ChunkRead(whole, m, cap);
    assert whole[..m] + whole[m..m + cap] == whole[..m + cap];
    CompletesAtApply(parse, whole, headLength, response, m + cap);
  }

  /** A receive over one chunk holding a head of length `headLength` and at least `cap` more bytes. */
  lemma ReceiveChunked(parse: Parser, whole: seq<byte>, headLength: nat, response: Response, cap: nat)
    requires Sound(parse) && CompletesAt(parse, whole, headLength, response)
    requires 0 < cap && 0 < headLength && headLength + cap <= |whole|
    ensures Receive(parse, [Data(whole)], cap).result
         == Ok(HandshakeOutcome(PartsOf(response), whole[headLength..LastReadEnd(0, headLength, cap)]))
  {
    assert whole[..0] == [] && whole[0..] == whole;
    ChunkRead(whole, 0, cap);
    CompletesAtApply(parse, whole, headLength, response, cap);
    if cap < headLength {
      LastReadEndStep(0, headLength, cap);
      CarryOnChunked(parse, whole, headLength, response, cap, cap, LastReadEnd(0, headLength, cap));
    }
  }

  /**
   * The small read buffer case: a transport holding the head and then the
   * tunnel data, read `cap` bytes at a time, leaves as data after the
   * handshake exactly the part of the tunnel data that shares the last read
   * with the end of the head: `(cap - L % cap) % cap` bytes for a head of
   * length `L`.
   */
  lemma SmallReadBuffer(parse: Parser, head: seq<byte>, tunnel: seq<byte>, response: Response, cap: nat)
    requires Sound(parse) && CompletesAt(parse, head + tunnel, |head|, response)
    requires 0 < cap <= |tunnel| && |head| > 0
    ensures Receive(parse, [Data(head + tunnel)], cap).result
         == Ok(HandshakeOutcome(PartsOf(response), tunnel[..(cap - |head| % cap) % cap]))
  {
    ReceiveChunked(parse, head + tunnel, |head|, response, cap);
    LeftoverBytes(head, tunnel, cap);
  }

  /** The bytes from the end of the head to the end of the last read are the first `(cap - L % cap) % cap` tunnel bytes. */
  lemma LeftoverBytes(head: seq<byte>, tunnel: seq<byte>, cap: nat)
    requires 0 < cap <= |tunnel| && 0 < |head|
    ensures LastReadEnd(0, |head|, cap) <= |head + tunnel|
    ensures (head + tunnel)[|head|..LastReadEnd(0, |head|, cap)] == tunnel[..(cap - |head| % cap) % cap]
  {
    Overshoot(|head|, cap);
    TunnelSlice(head, tunnel, LastReadEnd(0, |head|, cap) - |head|);
  }

  /** The bytes of `head + tunnel` from the end of `head` on are the tunnel's. */
  lemma TunnelSlice(head: seq<byte>, tunnel: seq<byte>, k: nat)
    requires k <= |tunnel|
    ensures (head + tunnel)[|head|..|head| + k] == tunnel[..k]
  {
  }

  /**
   * However the transport splits the bytes into chunks, and whatever the
   * read buffer size, a receive over a stream that starts with a head of
   * length `headLength` succeeds with that head's parts, and the leftover
   * followed by what the transport still holds is exactly the stream after
   * the head. The leftover on its own does depend on the split: see
   * `SmallReadBuffer`.
   */
  lemma AnyChunking(parse: Parser, incoming: seq<Event>, headLength: nat, response: Response, cap: nat)
    requires Sound(parse) && Clean(incoming) && cap > 0
    requires CompletesAt(parse, Flatten(incoming), headLength, response)
    requires headLength <= |Flatten(incoming)|
    ensures var run := Receive(parse, incoming, cap);
            && run.result.Ok?
            && run.result.value.responseParts == PartsOf(response)
            && run.result.value.dataAfterHandshake + Flatten(run.rest) == Flatten(incoming)[headLength..]
  {
    var whole := Flatten(incoming);
    var run := Receive(parse, incoming, cap);
    ReceiveClean(parse, incoming, cap);
    ReceiveBuffer(parse, incoming, cap);
    PrefixOf(run.buffered, Flatten(run.rest), whole);
    CompletesAtApply(parse, whole, headLength, response, |run.buffered|);
    TunnelBytes(parse, incoming, cap);
  }

  /**
   * Two transports that deliver the same bytes, split differently and read
   * with buffers of different sizes, give the same response parts and the
   * same bytes after the head.
   */
  lemma SameOutcomeAnySplit(parse: Parser, a: seq<Event>, capA: nat, b: seq<Event>, capB: nat,
                            headLength: nat, response: Response)
    requires Sound(parse) && Clean(a) && Clean(b) && capA > 0 && capB > 0
    requires Flatten(a) == Flatten(b)
    requires CompletesAt(parse, Flatten(a), headLength, response)
    requires headLength <= |Flatten(a)|
    ensures var runA, runB := Receive(parse, a, capA), Receive(parse, b, capB);
            && runA.result.Ok? && runB.result.Ok?
            && runA.result.value.responseParts == runB.result.value.responseParts
            && runA.result.value.dataAfterHandshake + Flatten(runA.rest)
               == runB.result.value.dataAfterHandshake + Flatten(runB.rest)
  {
    AnyChunking(parse, a, headLength, response, capA);
    AnyChunking(parse, b, headLength, response, capB);
  }

  /** The front part of a concatenation is its prefix of that length. */
  lemma PrefixOf(a: seq<byte>, b: seq<byte>, c: seq<byte>)
    requires c == a + b
    ensures |a| <= |c| && a == c[..|a|]
  {
  }

  // ---------------------------------------------------------------------
  // The steps, run over a transport

  /** `send_request`: the whole request is encoded into a growable buffer, then written with one `write_all`. */
  method SendRequest(stream: Duplex, host: seq<byte>, port: u16, headers: HeaderMap) returns (r: Result<()>)
    modifies stream.output
    ensures WroteAll(old(stream.output.data), old(stream.output.room), Request.RequestBytes(host, port, headers),
                     stream.output.data, stream.output.room, r.Ok?)
    ensures r.Err? ==> r.error == WriteZero
    ensures stream.output.closed == old(stream.output.closed) && stream.output.flushed == old(stream.output.flushed)
  {
    var buf := new Sink.Growable();
    var encoded := Request.Write(buf, host, port, headers);
    assert encoded.Ok?;
    r := stream.output.WriteAll(buf.data);
  }

  /** `receive_response`, with the read buffer `readBuf` overwritten by every read. */
  method ReceiveResponse(stream: Duplex, readBuf: array<byte>, parse: Parser) returns (r: Result<HandshakeOutcome>)
    requires Sound(parse)
    modifies stream, readBuf
    ensures var run := Receive(parse, old(stream.incoming), readBuf.Length);
            r == run.result && stream.incoming == run.rest
  {
    ghost var goal := Receive(parse, stream.incoming, readBuf.Length);
    ghost var before := stream.incoming;
    var total := stream.Read(readBuf);
    if total.Err? {
      return Err(total.error);
    }
    var buf := readBuf[..total.value];
    assert buf == ReadFrom(before, readBuf.Length).got.value;
    var status := parse(buf);
    if status.Malformed? {
      return Err(InvalidData);
    } else if status.Complete? {
      var outcome := NewHandshakeOutcome(status.response, buf[status.consumed..]);
      return Ok(outcome);
    }
    var carry := buf;
    while true
      invariant CarryOn(parse, carry, stream.incoming, readBuf.Length) == goal
      decreases Measure(stream.incoming)
    {
      before := stream.incoming;
      total := stream.Read(readBuf);
      if total.Err? {
        return Err(total.error);
      }
      if total.value == 0 {
        return Err(UnexpectedEof);
      }
      assert readBuf[..total.value] == ReadFrom(before, readBuf.Length).got.value;
      carry := carry + readBuf[..total.value];
      status := parse(carry);
      if status.Malformed? {
        return Err(InvalidData);
      } else if status.Complete? {
        var outcome := NewHandshakeOutcome(status.response, carry[status.consumed..]);
        return Ok(outcome);
      }
    }
  }

  /** `handshake`: send the request, and only if that succeeds, receive the response. */
  method Handshake(stream: Duplex, host: seq<byte>, port: u16, headers: HeaderMap, readBuf: array<byte>,
                   parse: Parser) returns (r: Result<HandshakeOutcome>)
    requires Sound(parse)
    modifies stream, stream.output, readBuf
    ensures var sent := Fits(old(stream.output.room), |Request.RequestBytes(host, port, headers)|);
            && WroteAll(old(stream.output.data), old(stream.output.room), Request.RequestBytes(host, port, headers),
                        stream.output.data, stream.output.room, sent)
            && (!sent ==> r == Err(WriteZero) && stream.incoming == old(stream.incoming))
            && (sent ==> var run := Receive(parse, old(stream.incoming), readBuf.Length);
                         r == run.result && stream.incoming == run.rest)
    ensures stream.output.closed == old(stream.output.closed) && stream.output.flushed == old(stream.output.flushed)
  {
    var sent := SendRequest(stream, host, port, headers);
    if sent.Err? {
      return Err(sent.error);
    }
    r := ReceiveResponse(stream, readBuf, parse);
  }
}

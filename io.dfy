/**
 * Bytes, results and the abstract transport the handshake runs over.
 *
 * The transport is whatever duplex byte stream the caller hands in. Its read
 * side is modelled as the finite list of events it will produce: chunks of
 * bytes and failures. A read takes as much of the next chunk as fits the
 * caller's buffer, and an exhausted list is end of stream (a read returning
 * zero bytes). Its write side is a `Sink`: a growable buffer, or one with a
 * bounded room that refuses further bytes once full.
 */
module Io {

  type byte = b: int | 0 <= b < 0x100

  type u16 = n: int | 0 <= n < 0x1_0000

  datatype Option<T> = None | Some(value: T)

  /** The kinds of `std::io::Error` this core raises or passes through. */
  datatype IoError = InvalidData | UnexpectedEof | WriteZero | Os(code: nat)

  datatype Result<T> = Ok(value: T) | Err(error: IoError)

  function Min(a: nat, b: nat): nat { if a < b then a else b }

  /** The bytes of a string literal; the literals used here are all ASCII. */
  function Ascii(s: string): (r: seq<byte>)
    ensures |r| == |s|
  {
    seq(|s|, i requires 0 <= i < |s| => (s[i] as int) % 0x100)
  }

  // ---------------------------------------------------------------------
  // Read side

  /**
   * A chunk of bytes the transport delivers. It is never empty: a read of
   * zero bytes is end of stream, after which the transport delivers nothing.
   */
  type Chunk = s: seq<byte> | |s| > 0 witness [0]

  /** What the transport offers to its next reads. */
  datatype Event = Data(bytes: Chunk) | Fault(error: IoError)

  /** All bytes the events will ever deliver, in order. */
  function Flatten(events: seq<Event>): seq<byte>
  {
    if events == [] then []
    else (if events[0].Data? then events[0].bytes else []) + Flatten(events[1..])
  }

  /** A termination measure: bytes still to deliver plus events still to pop. */
  function Measure(events: seq<Event>): nat
  {
    if events == [] then 0
    else (if events[0].Data? then |events[0].bytes| else 0) + 1 + Measure(events[1..])
  }

  lemma FlattenCons(e: Event, rest: seq<Event>)
    ensures Flatten([e] + rest) == (if e.Data? then e.bytes else []) + Flatten(rest)
    ensures Measure([e] + rest) == (if e.Data? then |e.bytes| else 0) + 1 + Measure(rest)
  {
    assert ([e] + rest)[1..] == rest;
  }

  /** The outcome of one read: what the caller got and what the transport still holds. */
  datatype Read = Read(got: Result<seq<byte>>, rest: seq<Event>)

  /**
   * One read into a buffer of `cap` bytes. A failure is reported once and
   * popped; a chunk gives up to `cap` of its bytes and keeps the rest for the
   * next read; an exhausted transport reads zero bytes.
   */
  function ReadFrom(events: seq<Event>, cap: nat): (r: Read)
    ensures r.got.Ok? ==> |r.got.value| <= cap
    ensures events == [] ==> r == Read(Ok([]), [])
  {
    if events == [] then Read(Ok([]), [])
    else match events[0]
      case Fault(e) => Read(Err(e), events[1..])
      case Data(d) =>
        var k := Min(cap, |d|);
        var rest := if k < |d| then [Data(d[k..])] + events[1..] else events[1..];
        Read(Ok(d[..k]), rest)
  }

  /**
   * A read loses, duplicates and reorders no byte: what it got, then what the
   * transport still holds, is what the transport held. A read that fails or
   * gets bytes leaves the transport with less to deliver.
   */
  lemma ReadFromSplit(events: seq<Event>, cap: nat)
    ensures var r := ReadFrom(events, cap);
            && Flatten(events) == (if r.got.Ok? then r.got.value else []) + Flatten(r.rest)
            && (r.got.Err? || |r.got.value| > 0 ==> Measure(r.rest) < Measure(events))
            && Measure(r.rest) <= Measure(events)
            && (events != [] && cap > 0 ==> Measure(r.rest) < Measure(events))
  {
    if events != [] {
      var tail := events[1..];
      assert [events[0]] + tail == events;
      FlattenCons(events[0], tail);
      if events[0].Data? {
        var d := events[0].bytes;
        var k := Min(cap, |d|);
        if k < |d| {
          FlattenCons(Data(d[k..]), tail);
          Assoc(d[..k], d[k..], Flatten(tail));
          assert d[..k] + d[k..] == d;
        } else {
          assert d[..k] == d;
        }
      }
    }
  }

  /** Concatenation regrouped; stated once so that proofs can ask for it where they need it. */
  lemma Assoc(a: seq<byte>, b: seq<byte>, c: seq<byte>)
    ensures (a + b) + c == a + (b + c)
  {
  }

  /** A chunk that fits the buffer is read whole, in one read. */
  lemma ReadWholeChunk(d: seq<byte>, cap: nat)
    requires 0 < |d| <= cap
    ensures ReadFrom([Data(d)], cap) == Read(Ok(d), [])
  {
    assert d[..|d|] == d;
  }

  /** How a read changes the caller's buffer and what it returns. */
  ghost predicate ReadInto(step: Read, cap: nat, bufBefore: seq<byte>, bufAfter: seq<byte>, r: Result<nat>)
  {
    && |bufAfter| == |bufBefore| == cap
    && (step.got.Err? ==> r == Err(step.got.error) && bufAfter == bufBefore)
    && (step.got.Ok? ==>
          var n := |step.got.value|;
          && r == Ok(n)
          && n <= cap
          && bufAfter[..n] == step.got.value
          && bufAfter[n..] == bufBefore[n..])
  }

  /** No failure: every read before the end delivers bytes. */
  predicate Clean(events: seq<Event>)
  {
    forall i :: 0 <= i < |events| ==> events[i].Data?
  }

  lemma ReadClean(events: seq<Event>, cap: nat)
    requires Clean(events) && cap > 0
    ensures ReadFrom(events, cap).got.Ok?
    ensures Clean(ReadFrom(events, cap).rest)
    ensures ReadFrom(events, cap).got.value == [] <==> events == []
  {
    if events != [] {
      var d := events[0].bytes;
      var k := Min(cap, |d|);
      var rest := ReadFrom(events, cap).rest;
      if k < |d| {
        assert rest == [Data(d[k..])] + events[1..];
        forall i | 0 <= i < |rest| ensures rest[i].Data? && |rest[i].bytes| > 0 {
          if i > 0 { assert rest[i] == events[i]; }
        }
      }
    }
  }

  // ---------------------------------------------------------------------
  // Write side

  /** Whether `n` more bytes fit a sink with this much room left (`None`: unbounded). */
  predicate Fits(room: Option<nat>, n: nat)
  {
    room.None? || n <= room.value
  }

  /** How many of `n` offered bytes the sink keeps. */
  function Accepted(room: Option<nat>, n: nat): (k: nat)
    ensures k <= n
    ensures k == n <==> Fits(room, n)
  {
    if Fits(room, n) then n else room.value
  }

  function RoomAfter(room: Option<nat>, n: nat): Option<nat>
  {
    match room
    case None => None
    case Some(left) => Some(left - Accepted(room, n))
  }

  /**
   * The effect of one `write_all` of `piece`, or of a run of them stopped by
   * `?` at the first failure: the sink gains the longest prefix of `piece`
   * that fits, and the call succeeds exactly when all of it fits.
   */
  ghost predicate WroteAll(before: seq<byte>, roomBefore: Option<nat>, piece: seq<byte>,
                           after: seq<byte>, roomAfter: Option<nat>, ok: bool)
  {
    && after == before + piece[..Accepted(roomBefore, |piece|)]
    && roomAfter == RoomAfter(roomBefore, |piece|)
    && (ok <==> Fits(roomBefore, |piece|))
  }

  /** A successful write followed by another is one write of both pieces. */
  lemma WroteAllThen(d0: seq<byte>, r0: Option<nat>, a: seq<byte>, d1: seq<byte>, r1: Option<nat>,
                     b: seq<byte>, d2: seq<byte>, r2: Option<nat>, ok: bool)
    requires WroteAll(d0, r0, a, d1, r1, true)
    requires WroteAll(d1, r1, b, d2, r2, ok)
    ensures WroteAll(d0, r0, a + b, d2, r2, ok)
  {
    var k := Accepted(r1, |b|);
    assert Accepted(r0, |a + b|) == |a| + k;
    assert (a + b)[..|a| + k] == a + b[..k];
  }

  /** A failed write stops the run: the rest of the pieces never reach the sink. */
  lemma WroteAllStop(d0: seq<byte>, r0: Option<nat>, done: seq<byte>, whole: seq<byte>,
                     d1: seq<byte>, r1: Option<nat>)
    requires WroteAll(d0, r0, done, d1, r1, false)
    requires done <= whole
    ensures WroteAll(d0, r0, whole, d1, r1, false)
  {
    var k := Accepted(r0, |done|);
    assert whole[..k] == done[..k];
  }

  /** The first non-empty slice, or nothing: what a vectored write without its own scatter support writes. */
  function FirstNonEmpty(bufs: seq<seq<byte>>): (b: seq<byte>)
    ensures b == [] <==> forall i :: 0 <= i < |bufs| ==> bufs[i] == []
    ensures b != [] ==> exists i :: 0 <= i < |bufs| && b == bufs[i] && forall j :: 0 <= j < i ==> bufs[j] == []
  {
    if bufs == [] then []
    else if bufs[0] != [] then bufs[0]
    else FirstNonEmpty(bufs[1..])
  }

  /** The write side of a stream: what it holds so far and how much more it takes. */
  class Sink {
    var data: seq<byte>
    var room: Option<nat>
    var closed: bool
    /** How many of the bytes in `data` have been pushed on by a flush. */
    var flushed: nat

    /** A growable buffer such as `Vec<u8>`: every write fits. */
    constructor Growable()
      ensures data == [] && room == None && !closed && flushed == 0
    {
      data, room, closed, flushed := [], None, false, 0;
    }

    /** A sink that takes `capacity` more bytes and then refuses. */
    constructor Bounded(capacity: nat)
      ensures data == [] && room == Some(capacity) && !closed && flushed == 0
    {
      data, room, closed, flushed := [], Some(capacity), false, 0;
    }

    /** One write: keeps what fits and says how much that was (zero once full). */
    method Write(bytes: seq<byte>) returns (r: Result<nat>)
      modifies this
      ensures r == Ok(Accepted(old(room), |bytes|))
      ensures data == old(data) + bytes[..r.value]
      ensures room == RoomAfter(old(room), |bytes|) && closed == old(closed) && flushed == old(flushed)
    {
      var k := Accepted(room, |bytes|);
      data := data + bytes[..k];
      room := RoomAfter(room, |bytes|);
      r := Ok(k);
    }

    /** A vectored write: the default behaviour, one `write` of the first non-empty slice. */
    method WriteVectored(bufs: seq<seq<byte>>) returns (r: Result<nat>)
      modifies this
      ensures r == Ok(Accepted(old(room), |FirstNonEmpty(bufs)|))
      ensures data == old(data) + FirstNonEmpty(bufs)[..r.value]
      ensures room == RoomAfter(old(room), |FirstNonEmpty(bufs)|) && closed == old(closed) && flushed == old(flushed)
    {
      r := Write(FirstNonEmpty(bufs));
    }

    /** `write_all`: fails with `WriteZero` when the bytes do not all fit. */
    method WriteAll(bytes: seq<byte>) returns (r: Result<()>)
      modifies this
      ensures WroteAll(old(data), old(room), bytes, data, room, r.Ok?)
      ensures r.Err? ==> r.error == WriteZero
      ensures closed == old(closed) && flushed == old(flushed)
    {
      var k := Accepted(room, |bytes|);
      data := data + bytes[..k];
      room := RoomAfter(room, |bytes|);
      r := if k == |bytes| then Ok(()) else Err(WriteZero);
    }

    /** `flush`: everything written so far is pushed on; nothing else changes. */
    method Flush() returns (r: Result<()>)
      modifies this
      ensures r.Ok? && flushed == |data|
      ensures data == old(data) && room == old(room) && closed == old(closed)
    {
      flushed := |data|;
      r := Ok(());
    }

    method Close() returns (r: Result<()>)
      modifies this
      ensures r.Ok? && closed
      ensures data == old(data) && room == old(room) && flushed == old(flushed)
    {
      closed := true;
      r := Ok(());
    }
  }

  /** The transport: a read side given as events and a write side. */
  class Duplex {
    var incoming: seq<Event>
    const output: Sink

    constructor (incoming: seq<Event>, output: Sink)
      ensures this.incoming == incoming && this.output == output
    {
      this.incoming := incoming;
      this.output := output;
    }

    /** One read into `buf`, as `ReadFrom` says. */
    method Read(buf: array<byte>) returns (r: Result<nat>)
      modifies this, buf
      ensures incoming == ReadFrom(old(incoming), buf.Length).rest
      ensures ReadInto(ReadFrom(old(incoming), buf.Length), buf.Length, old(buf[..]), buf[..], r)
    {
      var step := ReadFrom(incoming, buf.Length);
      incoming := step.rest;
      match step.got
      case Err(e) =>
        r := Err(e);
      case Ok(bytes) =>
        forall i | 0 <= i < |bytes| {
          buf[i] := bytes[i];
        }
        r := Ok(|bytes|);
    }
  }
}

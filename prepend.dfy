/**
 * `PrependIoStream` (src/prepend_io_stream.rs): a stream wrapper whose reads
 * first hand out a buffer of bytes kept aside, and only once that buffer is
 * used up go to the wrapped stream. Writes, flushes and closes go straight to
 * the wrapped stream.
 */
module PrependIo {
  import opened Io

  /** What the constructor keeps: a missing or empty buffer both become `None`. */
  function Stored(readPrepend: Option<seq<byte>>): (r: Option<seq<byte>>)
    ensures r != Some([])
    ensures r.None? <==> readPrepend == None || readPrepend == Some([])
    ensures r.Some? ==> r == readPrepend
  {
    match readPrepend
    case None => None
    case Some(bytes) => if bytes == [] then None else readPrepend
  }

  /** Handing out `out` and keeping `kept` of a buffer, before `later`, keeps every byte in place. */
  lemma ShiftKept(delivered: seq<byte>, out: seq<byte>, kept: seq<byte>, later: seq<byte>)
    ensures (delivered + out) + (kept + later) == delivered + ((out + kept) + later)
  {
  }

  lemma Cancel(front: seq<byte>, a: seq<byte>, b: seq<byte>)
    requires (front + a) + [] == front + b
    ensures a == b
  {
    assert a == (front + a)[|front|..];
    assert b == (front + b)[|front|..];
  }

  class PrependIoStream {
    var readPrepend: Option<seq<byte>>
    const wrapped: Duplex
    /** Every byte the wrapper's reads have handed out so far, in order. */
    ghost var delivered: seq<byte>

    /** The buffer kept aside is never present and empty. */
    ghost predicate Valid()
      reads this
    {
      readPrepend != Some([])
    }

    /** The bytes later reads will hand out, when no read fails: the buffer, then the wrapped stream's. */
    ghost function Pending(): seq<byte>
      reads this, wrapped
    {
      if readPrepend.Some? then readPrepend.value + Flatten(wrapped.incoming) else Flatten(wrapped.incoming)
    }

    /** How much the wrapper has left to hand out: a measure that every read of some bytes lowers. */
    ghost function Size(): nat
      reads this, wrapped
    {
      (if readPrepend.Some? then |readPrepend.value| else 0) + Measure(wrapped.incoming)
    }

    /** `new`: wraps `stream`, keeping `readPrepend` unless it is missing or empty. */
    constructor (stream: Duplex, readPrepend: Option<seq<byte>>)
      ensures wrapped == stream && this.readPrepend == Stored(readPrepend)
      ensures delivered == [] && Valid()
    {
      this.readPrepend := Stored(readPrepend);
      wrapped := stream;
      delivered := [];
    }

    /** `into_inner`: the wrapped stream and exactly what is left of the buffer. */
    method IntoInner() returns (stream: Duplex, rest: Option<seq<byte>>)
      requires Valid()
      ensures stream == wrapped && rest == readPrepend
      ensures rest.Some? ==> rest.value != []
    {
      stream, rest := wrapped, readPrepend;
    }

    /**
     * `poll_read`. With a buffer kept aside, the read takes as much of it as
     * fits `buf`, keeps the rest or drops the buffer for good, and leaves the
     * wrapped stream alone. Without one, the read is the wrapped stream's.
     * Either way, no byte is lost, duplicated or reordered.
     */
    method Read(buf: array<byte>) returns (r: Result<nat>)
      requires Valid()
      modifies this, wrapped, buf
      ensures Valid()
      ensures old(readPrepend).Some? ==>
                var held := old(readPrepend).value;
                var k := Min(buf.Length, |held|);
                && r == Ok(k)
                && buf[..k] == held[..k]
                && buf[k..] == old(buf[..])[k..]
                && readPrepend == Stored(Some(held[k..]))
                && wrapped.incoming == old(wrapped.incoming)
      ensures old(readPrepend).None? ==>
                && readPrepend == None
                && wrapped.incoming == ReadFrom(old(wrapped.incoming), buf.Length).rest
                && ReadInto(ReadFrom(old(wrapped.incoming), buf.Length), buf.Length, old(buf[..]), buf[..], r)
      ensures r.Ok? ==> r.value <= buf.Length && delivered == old(delivered) + buf[..r.value]
      ensures r.Err? ==> delivered == old(delivered)
      ensures delivered + Pending() == old(delivered + Pending())
      ensures r.Ok? && r.value > 0 ==> Size() < old(Size())
      ensures r == Ok(0) && buf.Length > 0 ==> readPrepend == None
      ensures Clean(old(wrapped.incoming)) && buf.Length > 0 ==>
                && r.Ok? && Clean(wrapped.incoming)
                && (r.value == 0 ==> Pending() == [])
    {
      if readPrepend.Some? {
        ghost var held, later := readPrepend.value, Flatten(wrapped.incoming);
        var k := ReadHeld(buf);
        if readPrepend.Some? {
          ShiftKept(old(delivered), held[..k], readPrepend.value, later);
        } else {
          Assoc(old(delivered), held, later);
        }
        return Ok(k);
      }
      r := ReadWrapped(buf);
    }

    /** The read that goes to the wrapped stream, once no buffer is kept aside. */
    method ReadWrapped(buf: array<byte>) returns (r: Result<nat>)
      requires readPrepend == None
      modifies this, wrapped, buf
      ensures readPrepend == None
      ensures wrapped.incoming == ReadFrom(old(wrapped.incoming), buf.Length).rest
      ensures ReadInto(ReadFrom(old(wrapped.incoming), buf.Length), buf.Length, old(buf[..]), buf[..], r)
      ensures r.Ok? ==> delivered == old(delivered) + buf[..r.value]
      ensures r.Err? ==> delivered == old(delivered)
      ensures delivered + Flatten(wrapped.incoming) == old(delivered) + Flatten(old(wrapped.incoming))
      ensures r.Ok? && r.value > 0 ==> Measure(wrapped.incoming) < Measure(old(wrapped.incoming))
      ensures Clean(old(wrapped.incoming)) && buf.Length > 0 ==>
                && r.Ok? && Clean(wrapped.incoming)
                && (r.value == 0 ==> wrapped.incoming == [])
    {
      ghost var before := wrapped.incoming;
      ReadFromSplit(before, buf.Length);
      if Clean(before) && buf.Length > 0 {
        ReadClean(before, buf.Length);
      }
      r := wrapped.Read(buf);
      if r.Ok? {
        Assoc(delivered, buf[..r.value], Flatten(wrapped.incoming));
        delivered := delivered + buf[..r.value];
      }
    }

    /** The read that serves the buffer kept aside: `take`, `split_off`, `replace` and the copy. */
    method ReadHeld(buf: array<byte>) returns (k: nat)
      requires readPrepend.Some? && readPrepend.value != []
      modifies this, buf
      ensures var held := old(readPrepend).value;
              && k == Min(buf.Length, |held|)
              && buf[..k] == held[..k]
              && buf[k..] == old(buf[..])[k..]
              && readPrepend == Stored(Some(held[k..]))
              && (readPrepend.Some? ==> held[..k] + readPrepend.value == held)
              && (readPrepend.None? ==> held[..k] == held)
              && delivered == old(delivered) + held[..k]
    {
      var held := readPrepend.value;
      readPrepend := None;
      k := Min(buf.Length, |held|);
      var tail := held[k..];
      if tail != [] {
        readPrepend := Some(tail);
      }
      forall i | 0 <= i < k {
        buf[i] := held[i];
      }
      assert held[..k] + tail == held;
      delivered := delivered + held[..k];
    }

    /** `poll_write`, forwarded. */
    method Write(bytes: seq<byte>) returns (r: Result<nat>)
      modifies wrapped.output
      ensures r == Ok(Accepted(old(wrapped.output.room), |bytes|))
      ensures wrapped.output.data == old(wrapped.output.data) + bytes[..r.value]
      ensures wrapped.output.room == RoomAfter(old(wrapped.output.room), |bytes|)
      ensures wrapped.output.closed == old(wrapped.output.closed)
      ensures wrapped.output.flushed == old(wrapped.output.flushed)
      ensures readPrepend == old(readPrepend)
    {
      r := wrapped.output.Write(bytes);
    }

    /** `poll_write_vectored`, forwarded. */
    method WriteVectored(bufs: seq<seq<byte>>) returns (r: Result<nat>)
      modifies wrapped.output
      ensures r == Ok(Accepted(old(wrapped.output.room), |FirstNonEmpty(bufs)|))
      ensures wrapped.output.data == old(wrapped.output.data) + FirstNonEmpty(bufs)[..r.value]
      ensures wrapped.output.room == RoomAfter(old(wrapped.output.room), |FirstNonEmpty(bufs)|)
      ensures wrapped.output.closed == old(wrapped.output.closed)
      ensures wrapped.output.flushed == old(wrapped.output.flushed)
      ensures readPrepend == old(readPrepend)
    {
      r := wrapped.output.WriteVectored(bufs);
    }

    /** `poll_flush`, forwarded. */
    method Flush() returns (r: Result<()>)
      modifies wrapped.output
      ensures r.Ok? && wrapped.output.flushed == |wrapped.output.data|
      ensures wrapped.output.data == old(wrapped.output.data) && wrapped.output.room == old(wrapped.output.room)
      ensures wrapped.output.closed == old(wrapped.output.closed)
      ensures readPrepend == old(readPrepend)
    {
      r := wrapped.output.Flush();
    }

    /** `poll_close`, forwarded. */
    method Close() returns (r: Result<()>)
      modifies wrapped.output
      ensures r.Ok? && wrapped.output.closed
      ensures wrapped.output.data == old(wrapped.output.data) && wrapped.output.room == old(wrapped.output.room)
      ensures wrapped.output.flushed == old(wrapped.output.flushed)
      ensures readPrepend == old(readPrepend)
    {
      r := wrapped.output.Close();
    }
  }

  /**
   * `read_to_end` over the wrapper, reading `cap` bytes at a time until a
   * read returns zero bytes. On success the buffer kept aside is gone and
   * the result is what the reads handed out; on a transport that only
   * delivers bytes, that is the buffer followed by all of the transport.
   */
  method ReadToEnd(stream: PrependIoStream, cap: nat) returns (r: Result<seq<byte>>)
    requires stream.Valid() && cap > 0
    modifies stream, stream.wrapped
    ensures stream.Valid()
    ensures stream.delivered + stream.Pending() == old(stream.delivered) + old(stream.Pending())
    ensures r.Ok? ==> stream.readPrepend == None && stream.delivered == old(stream.delivered) + r.value
    ensures Clean(old(stream.wrapped.incoming)) ==>
              && r == Ok(old(stream.Pending()))
              && stream.wrapped.incoming == []
  {
    ghost var clean := Clean(stream.wrapped.incoming);
    ghost var delivered0, pending0 := stream.delivered, stream.Pending();
    var data := [];
    var buf := new byte[cap];
    while true
      invariant stream.Valid() && buf.Length == cap
      invariant stream.delivered == delivered0 + data
      invariant stream.delivered + stream.Pending() == delivered0 + pending0
      invariant clean ==> Clean(stream.wrapped.incoming)
      decreases stream.Size()
    {
      var n := stream.Read(buf);
      if n.Err? {
        return Err(n.error);
      }
      if n.value == 0 {
        if clean {
          Cancel(delivered0, data, pending0);
        }
        return Ok(data);
      }
      Assoc(delivered0, data, buf[..n.value]);
      data := data + buf[..n.value];
    }
  }

  /** The test that reads a wrapper to its end: the buffer kept aside, then the wrapped stream. */
  method SimplePrependedRead(cap: nat) returns (r: Result<seq<byte>>)
    requires cap > 0
    ensures r == Ok([50, 60, 70, 80, 1, 2, 3, 4])
  {
    var writer := new Sink.Growable();
    var inner := new Duplex([Data([1, 2, 3, 4])], writer);
    var stream := new PrependIoStream(inner, Some([50, 60, 70, 80]));
    PrependedBytes();
    r := ReadToEnd(stream, cap);
  }

  /** The test's transport holds no failure, and the buffer followed by it is the expected output. */
  lemma PrependedBytes()
    ensures Clean([Data([1, 2, 3, 4])])
    ensures [50, 60, 70, 80] + Flatten([Data([1, 2, 3, 4])]) == [50, 60, 70, 80, 1, 2, 3, 4]
  {
    assert Flatten([Data([1, 2, 3, 4])]) == [1, 2, 3, 4];
  }

  /** A read into a new buffer of `size` bytes, giving back the bytes it got. */
  method ReadFresh(stream: PrependIoStream, size: nat) returns (r: Result<seq<byte>>)
    requires stream.Valid()
    modifies stream, stream.wrapped
    ensures stream.Valid()
    ensures old(stream.readPrepend).Some? ==>
              var held := old(stream.readPrepend).value;
              var k := Min(size, |held|);
              && r == Ok(held[..k])
              && stream.readPrepend == Stored(Some(held[k..]))
              && stream.wrapped.incoming == old(stream.wrapped.incoming)
    ensures old(stream.readPrepend).None? ==>
              var step := ReadFrom(old(stream.wrapped.incoming), size);
              && r == step.got
              && stream.readPrepend == None
              && stream.wrapped.incoming == step.rest
  {
    var buf := new byte[size];
    var n := stream.Read(buf);
    if n.Err? {
      return Err(n.error);
    }
    r := Ok(buf[..n.value]);
  }

  /** The test with a two-byte read first: `[50, 60]`, then `[70, 80]`, then `[1, 2, 3, 4]`. */
  method SmallBufferPrependedRead() returns (first: Result<seq<byte>>, second: Result<seq<byte>>,
                                             third: Result<seq<byte>>)
    ensures first == Ok([50, 60]) && second == Ok([70, 80]) && third == Ok([1, 2, 3, 4])
  {
    var writer := new Sink.Growable();
    var inner := new Duplex([Data([1, 2, 3, 4])], writer);
    var stream := new PrependIoStream(inner, Some([50, 60, 70, 80]));
    assert [50, 60, 70, 80][..2] == [50, 60] && [50, 60, 70, 80][2..] == [70, 80];
    first := ReadFresh(stream, 2);
    assert [70, 80][..2] == [70, 80];
    second := ReadFresh(stream, 1024);
    ReadWholeChunk([1, 2, 3, 4], 1024);
    third := ReadFresh(stream, 1024);
  }
}

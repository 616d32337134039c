# http-proxy-client-async, modelled in Dafny

This project models the client side of the HTTP CONNECT handshake, as the crate does it. A request
`CONNECT host:port HTTP/1.1`, with a matching `Host` header and any extra headers, is written to a
duplex stream. The proxy's response head is then read, in one or more reads, until the tokenizer
accepts it. The bytes that came after the head are handed back, either on their own or already
wrapped in a stream (`PrependIoStream`) whose first reads return them.

Modules, one per source file:

- `Io`: the abstract transport.
  - Its read side is a finite list of events: non-empty chunks of bytes and failures. A read takes
    as much of the next chunk as fits the caller's buffer. A read returns zero bytes only once the
    list is exhausted (end of stream) or when the caller's buffer is empty.
  - Its write side is a `Sink`, which either grows without bound or refuses bytes once full.
- `Headers` holds header pairs. `Tokenizer` stands in for `httparse`: a parser is a parameter
  `parse`, constrained only by `Sound`. A complete parse consumes at most its input, and its
  response meets `IsComplete`: it has a status code and a reason, and every header name and value
  is valid for the header types. `IsComplete` is what the `unwrap`s of
  src/flow/handshake_outcome.rs:15-16 and 20-21 rely on.
- `Request` models `src/flow/request.rs`, `HandshakeOutcomes` models
  `src/flow/handshake_outcome.rs`, and `Flow` models `src/flow.rs`.
- `Http` models `src/http.rs`, the older header-less handshake. It is proved to agree with `Flow`.
- `PrependIo` models `src/prepend_io_stream.rs`. `Lib` models `src/lib.rs` and the end-to-end use
  of `tests/e2e.rs`.

The receivers are specified by functions:

- `Flow.Receive` and `Flow.CarryOn` give the result, the carry-on buffer and what the transport
  still holds.
- `Http.Receive` and `Http.CarryOn` are the same for the older receiver.
- The methods that run them over a `Duplex`, overwriting the read buffer on every read, are proved
  equal to these functions.

The response head may arrive split across any number of reads. `Flow.AnyChunking` and
`Flow.SameOutcomeAnySplit` show that the split and the read buffer size do not change the
response parts, nor the leftover followed by the bytes the transport still holds. The leftover
on its own does depend on the split: it is whatever the last read brought in past the head, as
`Flow.SmallReadBuffer` works out for reads of `cap` bytes.

## Model

| member | source | states |
|---|---|---|
| Request.Decimal | src/flow/request.rs:17 | the port is written as at least one ASCII digit and never with a leading zero |
| Request.DecimalRoundTrip | src/flow/request.rs:17 | reading the written digits back as a decimal number gives the port |
| Request.PortWidth | src/flow/request.rs:17 | a `u16` port takes one to five digits |
| Request.HostPort | src/flow/request.rs:14-19 | the target is the host, a colon, then one to five digits that read back as the port |
| Request.HeaderLines | src/flow/request.rs:4-12 | one line per header, each at least four bytes long (the `: ` separator and CRLF) |
| Request.HeaderLinesEnd | src/flow/request.rs:4-12 | the header lines are empty or end with CRLF |
| Request.RequestBytes | src/flow/request.rs:21-34 | the encoded request starts with `CONNECT ` and ends with the empty line (CRLF CRLF) that closes the head |
| Request.HeaderLinesConcat | src/flow/request.rs:4-12 | the header lines of two maps one after the other are the lines of the first, then of the second |
| Request.HeaderLinesSplit | src/flow/request.rs:4-12 | the header lines split at any header into the lines before it and from it on |
| Request.HeaderLinesSnoc | src/flow/request.rs:5-9 | one more header appends its `name: value` CRLF line to the lines so far |
| Request.HeaderCopiedVerbatim | src/flow/request.rs:6-8 | every header's name and value are copied byte for byte, in map order, between the lines of the headers before and after it |
| Request.EmptyHeaderMap | src/flow/request.rs:21-34 | with no headers the request ends with the Host line and one empty line |
| Request.TargetInBothLines | src/flow/request.rs:21-34 | the request is `CONNECT `, target, ` HTTP/1.1` CRLF, `Host: `, the same target, CRLF, the header lines and CRLF, each at its offset |
| Request.RequestLayout | src/flow/request.rs:22-32 | where each piece of the request sits, for any target and header lines |
| Request.WriteHeaders | src/flow/request.rs:4-12 | the writer gains the header lines, or the part of them that fits before the failing write, which is returned; the writer is neither flushed nor closed |
| Request.WriteHostPort | src/flow/request.rs:14-19 | the writer gains `host:port`, or what fits of it before a failure; the writer is neither flushed nor closed |
| Request.Write | src/flow/request.rs:21-34 | the writer gains the whole request, or what fits of it before the first failure; earlier contents stay in front; the writer is neither flushed nor closed |
| Request.RequestExample | src/flow.rs:110-125 | the request for `127.0.0.1:8080` with no headers is the test's text |
| Request.RequestExampleWithHeader | src/flow.rs:127-148 | the request with a `proxy-authorization` header is the test's text |
| HandshakeOutcomes.HeadersOf | src/flow/handshake_outcome.rs:17-23 | one entry per parsed header, in parse order, with its name and value |
| HandshakeOutcomes.PartsOf | src/flow/handshake_outcome.rs:11-29 | the status code and reason are the parsed ones and every header is copied, valid for the header types |
| HandshakeOutcomes.PartsFromCompleteResponse | src/flow/handshake_outcome.rs:11-29 | the loop that inserts each parsed header in turn builds `PartsOf` of the response |
| HandshakeOutcomes.NewHandshakeOutcome | src/flow/handshake_outcome.rs:37-46 | the outcome holds the parts of the response and the leftover bytes unchanged |
| Flow.Receive | src/flow.rs:41-100 | the receiver never gives back transport it has read, and consumes at least one byte or failure from a non-empty transport with a non-empty read buffer |
| Flow.CarryOn | src/flow.rs:78-99 | the carry-on loop never gives back transport it has read, and consumes from a non-empty transport with a non-empty read buffer |
| Flow.Decide | src/flow.rs:59-68 | a partial parse reads on, a parse error is `InvalidData`, and a complete parse of `c` bytes returns the parts and the bytes from `c` on |
| Flow.CarryOnTurn | src/flow.rs:79-98 | one turn of the loop either goes on with the read appended to the carry-on buffer, or stops with that buffer |
| Flow.CarryOnBuffer | src/flow.rs:78-82 | the carry-on buffer is what it started with followed by every read, and nothing is lost from the transport |
| Flow.CarryOnDecided | src/flow.rs:87-96 | a successful loop returns what the parse of its whole buffer decides |
| Flow.ReceiveBuffer | src/flow.rs:52-99 | the receiver's buffer is all the bytes read, and a success is the parse's decision on that buffer |
| Flow.TunnelBytes | src/flow.rs:65-66 | on success the leftover, then the unread transport, is the transport's bytes from the end of the head on |
| Flow.HappyPath | src/flow.rs:52-68 | a first read the tokenizer completes is the only read, and the leftover is `read_buf[c..n]` |
| Flow.CarryOnClean | src/flow.rs:79-99 | on a transport without failures the loop ends on a parse or at the end of the stream |
| Flow.ReceiveCleanEnds | src/flow.rs:52-99 | on a transport without failures the receiver ends on a parse or at the end of the stream |
| Flow.CarryOnKeepsClean | src/flow.rs:79-82 | the loop leaves a transport without failures without failures |
| Flow.ReceiveKeepsClean | src/flow.rs:52-82 | the receiver leaves a transport without failures without failures |
| Flow.Verdict | src/flow.rs:59-68 | success, `InvalidData` and end of stream match a complete, malformed and partial parse of the buffer, both ways |
| Flow.ReceiveClean | src/flow.rs:52-99 | on a transport without failures the result matches the tokenizer's verdict on all bytes read, both ways |
| Flow.CarryOnStops | src/flow.rs:80-89 | the loop reads nothing past the read that stops it |
| Flow.ReceiveStops | src/flow.rs:53-61 | a read error or a parse decision stops the receiver, and later transport bytes stay unread |
| Flow.CarryOnChunked | src/flow.rs:79-96 | from any offset before the end of the head, the carry-on loop over one chunk ends with the read that completes the head and returns the bytes from the head's end to that read's end |
| Flow.ReceiveChunked | src/flow.rs:79-96 | reading one chunk `cap` bytes at a time, the leftover runs from the end of the head to the end of the last read |
| Flow.Overshoot | src/flow.rs:196-222 | the last read ends `(cap - L % cap) % cap` bytes past a head of length `L` |
| Flow.LeftoverBytes | src/flow.rs:209-210 | the bytes from the end of the head to the end of the last read are the first `(cap - L % cap) % cap` bytes of the tunnel data |
| Flow.SmallReadBuffer | src/flow.rs:196-222 | with small reads the leftover is the first `(cap - L % cap) % cap` bytes of the tunnel data, with the head's parts |
| Flow.AnyChunking | src/flow.rs:52-99 | on any transport without failures that starts with a head of length `L`, with any read buffer size, the receive succeeds with the head's parts, and the leftover followed by the unread transport is the stream from byte `L` on |
| Flow.SameOutcomeAnySplit | src/flow.rs:52-99 | two transports that deliver the same bytes in different chunks, read with different buffer sizes, give the same response parts and the same bytes after the head |
| Flow.SendRequest | src/flow.rs:25-39 | the stream gets exactly the encoded request in one `write_all`, or what fits of it and `WriteZero`; the writer is neither flushed nor closed |
| Flow.ReceiveResponse | src/flow.rs:41-100 | the receive loop over the stream returns `Receive`'s result and leaves the stream as `Receive` does |
| Flow.Handshake | src/flow.rs:11-23 | the request is sent first; a failed send returns its error before any read; otherwise the result is the receive's; the writer is neither flushed nor closed |
| Http.RequestText | src/http.rs:21-26 | the template starts with `CONNECT ` and ends with the empty line (CRLF CRLF) that closes the head |
| Http.Receive | src/http.rs:31-78 | the older receiver never gives back transport it has read, and consumes from a non-empty transport with a non-empty read buffer |
| Http.CarryOn | src/http.rs:59-77 | the older carry-on loop never gives back transport it has read, and consumes from a non-empty transport with a non-empty read buffer |
| Http.TemplateIsEncoder | src/http.rs:21-26 | the `format!` template is exactly the encoder's output with no headers |
| Http.TemplateExample | src/http.rs:86-101 | the template for `127.0.0.1:8080` is the test's text |
| Http.Decide | src/http.rs:46-52 | a partial parse reads on, a parse error is `InvalidData`, and a complete parse of `c` bytes returns the bytes from `c` on |
| Http.DecideAgrees | src/http.rs:46-52 | the older decision is the newer one with only the leftover kept |
| Http.CarryOnAgrees | src/http.rs:59-77 | the older loop reads what the newer reads, fails alike, and returns the newer one's leftover |
| Http.ReceiveAgrees | src/http.rs:31-78 | the older receiver reads what the newer reads, fails alike, and returns the newer one's leftover |
| Http.TunnelBytes | src/http.rs:59-76 | the buffer is all bytes read, and on success the leftover, then the unread transport, is the transport from the end of the head on |
| Http.HappyPath | src/http.rs:41-53 | a first read the tokenizer completes is the only read, and the result is `read_buf[c..n]` |
| Http.ReceiveStops | src/http.rs:46-48 | a read error or a parse decision stops the receiver, and later transport bytes stay unread |
| Http.SmallReadBuffer | src/http.rs:120-141 | with small reads the leftover is the first `(cap - L % cap) % cap` bytes of the tunnel data |
| Http.AnyChunking | src/http.rs:41-77 | on any transport without failures that starts with a head of length `L`, the older receiver succeeds, and its leftover followed by the unread transport is the stream from byte `L` on |
| Http.SendRequest | src/http.rs:17-29 | the stream gets exactly the template in one `write_all`, or what fits of it and `WriteZero`; the writer is neither flushed nor closed |
| Http.ReceiveResponse | src/http.rs:31-78 | the receive loop over the stream returns `Receive`'s result and leaves the stream as `Receive` does |
| Http.Handshake | src/http.rs:4-15 | the request is sent first; a failed send returns its error before any read; otherwise the result is the receive's; the writer is neither flushed nor closed |
| PrependIo.Stored | src/prepend_io_stream.rs:21-25 | a missing or empty buffer is stored as `None`, and a non-empty one unchanged |
| PrependIo.PrependIoStream.constructor | src/prepend_io_stream.rs:20-30 | the wrapper holds the stream and `Stored` of the buffer, never an empty one |
| PrependIo.PrependIoStream.IntoInner | src/prepend_io_stream.rs:32-34 | returns the wrapped stream and exactly what is left of the buffer |
| PrependIo.PrependIoStream.Read | src/prepend_io_stream.rs:41-59 | with a buffer: `k = min(len, held)` bytes of it, the rest kept or dropped, the stream untouched; without: the stream's read; no byte lost either way |
| PrependIo.PrependIoStream.ReadHeld | src/prepend_io_stream.rs:47-56 | `min(len, held)` bytes of the buffer are copied to the front of the caller's buffer, the rest of the caller's buffer is untouched, and the tail is kept only when it is not empty |
| PrependIo.PrependIoStream.ReadWrapped | src/prepend_io_stream.rs:58 | with no buffer left, the read is the stream's own, and no byte is lost or reordered |
| PrependIo.PrependIoStream.Write | src/prepend_io_stream.rs:66-68 | forwarded to the stream's write, the buffer unchanged |
| PrependIo.PrependIoStream.WriteVectored | src/prepend_io_stream.rs:70-76 | forwarded to the stream's vectored write, the buffer unchanged |
| PrependIo.PrependIoStream.Flush | src/prepend_io_stream.rs:78-80 | forwarded to the stream's flush: everything written to the stream so far is flushed; its data, room and the buffer are unchanged |
| PrependIo.PrependIoStream.Close | src/prepend_io_stream.rs:82-84 | forwarded to the stream's close, the buffer unchanged |
| PrependIo.ReadToEnd | src/prepend_io_stream.rs:103-107 | reading to the end gives the buffer, then the stream, and leaves no buffer behind |
| PrependIo.ReadFresh | src/prepend_io_stream.rs:122-138 | a read into a fresh buffer of `size` bytes returns the first `min(size, held)` buffered bytes, or the stream's own read once nothing is buffered |
| PrependIo.SimplePrependedRead | src/prepend_io_stream.rs:94-111 | `[50, 60, 70, 80]` before `[1, 2, 3, 4]` reads to the end as `[50, 60, 70, 80, 1, 2, 3, 4]` |
| PrependIo.SmallBufferPrependedRead | src/prepend_io_stream.rs:113-142 | reads into buffers of 2, 1024 and 1024 bytes return `[50, 60]`, then `[70, 80]`, then `[1, 2, 3, 4]` |
| Lib.HandshakeAndWrap | src/lib.rs:15-34 | a failed handshake is returned as it is; a successful one returns its parts and a new wrapper whose reads continue where the head ended; the writer is neither flushed nor closed |
| Lib.EndToEnd | tests/e2e.rs:1-66 | the write side holds exactly the request, the tunnel reads every byte after the head, and nothing is left over |

## Left out

- The async machinery is not modelled: futures, `Pin`, `Context` and pending polls. Every read and
  write is a synchronous call on the abstract transport.
- The `httparse` tokenizer and the HTTP grammar are not part of this model, nor is its limit of 16
  headers. A tokenizer is any parser whose complete parses consume at most their input and give a
  response meeting `IsComplete` (a code, a reason, and valid header names and values), so the
  `unwrap`s of src/flow/handshake_outcome.rs:15-16 and 20-21 never panic in the model.
  `Flow.CompletesAt` describes the parser the small-buffer tests rely on.
- The header types of the `http` crate are not modelled. A `HeaderMap` is an ordered list of pairs,
  and `insert` appends. Name case folding and the replacement of duplicate names are library
  behaviour the model does not capture. Header validity is kept only as the predicates
  `ValidName` and `ValidValue`, which a complete response is assumed to meet in place of the
  `unwrap`s.
- Concrete transports are left out: `Cursor`, `MergeIO` and sockets. So are the retries inside
  `write_all` and the 1024-byte capacity hint.
- `write_all` is modelled by a sink that keeps what fits and fails with `WriteZero`. This is what
  `write_all` reports when a writer stops accepting bytes.
- A vectored write writes the first non-empty slice, which is the default behaviour of
  `poll_write_vectored`. Transports that write several slices at once are not modelled.
- Flow.ReceiveResponse: a read of zero bytes happens in the model only at end of stream or with an
  empty read buffer. Every later read then also returns zero bytes, and the parse of the unchanged
  buffer stays partial, so the source loops for ever (src/flow.rs:79-99). The model instead ends
  the loop with `UnexpectedEof`, which keeps the loop finite over a finite transport.
- Http.ReceiveResponse: the same zero-byte divergence applies (src/http.rs:60-77).
- Flow.CarryOn: the step after a read of zero bytes ends with `UnexpectedEof` where the source
  reads again for ever (src/flow.rs:79-99), as for `Flow.ReceiveResponse`.
- Flow.Receive: it inherits the zero-byte divergence of `Flow.CarryOn`.
- Http.CarryOn: the same zero-byte divergence as `Flow.CarryOn` (src/http.rs:60-77).
- Http.Receive: it inherits the zero-byte divergence of `Http.CarryOn`.
- A transport that delivers more bytes after a read of zero bytes is not modelled: chunks are
  never empty, and an exhausted event list stays exhausted.
- PrependIo.ReadToEnd: every read uses one fixed buffer size `cap`. `read_to_end` of `futures` reads
  into the spare capacity of a growing `Vec` instead. On a transport without failures both give
  the buffer followed by the whole stream; how the reads are split is not modelled. On a read
  error the model returns only the error: the bytes read before it are dropped, whereas
  `read_to_end` leaves them in the caller's `Vec`.
- The write side fails only by refusing bytes, which `write_all` reports as `WriteZero`; `flush`
  and `close` always succeed. Other errors a transport may return from a write, a flush or a close
  are not modelled, so the `?` of src/flow.rs:21 and src/lib.rs:28 and the forwarding of
  src/prepend_io_stream.rs:78-84 pass on only `WriteZero`.
- `host` is modelled as the bytes of its UTF-8 encoding, because the encoder only writes
  `host.as_bytes()`. Rust's `&str` type is not modelled.
- Lib.EndToEnd follows the steps of tests/e2e.rs with the signature of src/lib.rs:15-21. The test
  itself calls an older three-argument signature, and its sample bytes are left abstract, because
  the tokenizer is.
- The `Debug` derivations and the re-exports of src/lib.rs are left out: they carry no behaviour.

/**
 * The CONNECT request encoder (src/flow/request.rs).
 *
 * `RequestBytes` is the exact byte string the encoder produces; the methods
 * `WriteHeaders`, `WriteHostPort` and `Write` are the step-by-step writes to
 * a sink, each proved to leave exactly (a prefix of) that string behind.
 */
module Request {
  import opened Io
  import opened Headers

  /** "CONNECT " */
  const Connect: seq<byte> := [0x43, 0x4F, 0x4E, 0x4E, 0x45, 0x43, 0x54, 0x20]
  /** " HTTP/1.1\r\n" */
  const Version: seq<byte> := [0x20, 0x48, 0x54, 0x54, 0x50, 0x2F, 0x31, 0x2E, 0x31, 0x0D, 0x0A]
  /** "Host: " */
  const HostName: seq<byte> := [0x48, 0x6F, 0x73, 0x74, 0x3A, 0x20]
  /** ":" */
  const Colon: seq<byte> := [0x3A]
  /** ": " */
  const Separator: seq<byte> := [0x3A, 0x20]
  /** "\r\n" */
  const Crlf: seq<byte> := [0x0D, 0x0A]

  predicate IsDigit(b: byte) { 0x30 <= b <= 0x39 }

  /** The decimal digits `{}` formats an unsigned integer with. */
  function Decimal(n: nat): (r: seq<byte>)
    ensures |r| >= 1
    ensures forall i :: 0 <= i < |r| ==> IsDigit(r[i])
    ensures r[0] == 0x30 ==> n == 0
  {
    if n < 10 then [0x30 + n] else Decimal(n / 10) + [0x30 + n % 10]
  }

  /** The number a string of decimal digits denotes. */
  function DigitsValue(s: seq<byte>): nat
    requires forall i :: 0 <= i < |s| ==> IsDigit(s[i])
  {
    if s == [] then 0
    else
      var last := s[|s| - 1];
      assert IsDigit(last);
      DigitsValue(s[..|s| - 1]) * 10 + (last - 0x30)
  }

  /** Reading the digits back gives the number: the port is rendered losslessly. */
  lemma {:induction false} DecimalRoundTrip(n: nat)
    ensures DigitsValue(Decimal(n)) == n
  {
    if n >= 10 {
      var s := Decimal(n);
      assert s[..|s| - 1] == Decimal(n / 10);
      DecimalRoundTrip(n / 10);
    }
  }

  function Pow10(k: nat): nat { if k == 0 then 1 else 10 * Pow10(k - 1) }

  /** A number below 10^k takes at most k digits. */
  lemma {:induction false} DecimalWidth(n: nat, k: nat)
    requires k >= 1 && n < Pow10(k)
    ensures |Decimal(n)| <= k
  {
    if n >= 10 {
      DecimalWidth(n / 10, k - 1);
    }
  }

  /** A `u16` port takes one to five digits. */
  lemma PortWidth(port: u16)
    ensures 1 <= |Decimal(port)| <= 5
  {
    assert Pow10(5) == 100000;
    DecimalWidth(port, 5);
  }

  /**
   * `host:port`, the request target in authority form: the host, a colon,
   * then one to five decimal digits that read back as the port.
   */
  function HostPort(host: seq<byte>, port: u16): (r: seq<byte>)
    ensures |host| + 2 <= |r| <= |host| + 6
    ensures r[..|host|] == host && r[|host|] == 0x3A
    ensures var digits := r[|host| + 1..];
            && (forall i :: 0 <= i < |digits| ==> IsDigit(digits[i]))
            && DigitsValue(digits) == port
  {
    PortWidth(port);
    DecimalRoundTrip(port);
    var r := host + Colon + Decimal(port);
    assert r[|host| + 1..] == Decimal(port);
    r
  }

  /** `name: value\r\n`, one line per header. */
  function HeaderLine(h: Header): seq<byte>
  {
    h.name + Separator + h.value + Crlf
  }

  /** One header line per header, in map order; each line takes at least four bytes. */
  function HeaderLines(headers: HeaderMap): (r: seq<byte>)
    ensures |r| >= 4 * |headers|
  {
    if headers == [] then []
    else HeaderLines(headers[..|headers| - 1]) + HeaderLine(headers[|headers| - 1])
  }

  /** Header lines, when there are any, end with CRLF. */
  lemma HeaderLinesEnd(headers: HeaderMap)
    ensures var r := HeaderLines(headers); r == [] || (|r| >= 2 && r[|r| - 2..] == Crlf)
  {
    if headers != [] {
      var h := headers[|headers| - 1];
      var front := HeaderLines(headers[..|headers| - 1]);
      assert HeaderLines(headers) == (front + h.name + Separator + h.value) + Crlf;
    }
  }

  /**
   * The whole request the encoder writes. It starts with the method and ends
   * with the empty line that closes the head.
   */
  function RequestBytes(host: seq<byte>, port: u16, headers: HeaderMap): (r: seq<byte>)
    ensures |r| >= |Connect| + 4 && r[..|Connect|] == Connect
    ensures r[|r| - 4..] == Crlf + Crlf
  {
    var target := HostPort(host, port);
    var lines := HeaderLines(headers);
    HeaderLinesEnd(headers);
    HeadEnds(target + Version + HostName + target, lines);
    Connect + target + Version + HostName + target + Crlf + lines + Crlf
  }

  /** A head whose header lines are empty or end with CRLF starts with the method and ends with an empty line. */
  lemma HeadEnds(middle: seq<byte>, lines: seq<byte>)
    requires lines == [] || (|lines| >= 2 && lines[|lines| - 2..] == Crlf)
    ensures var r := Connect + middle + Crlf + lines + Crlf;
            |r| >= |Connect| + 4 && r[..|Connect|] == Connect && r[|r| - 4..] == Crlf + Crlf
  {
    var r := Connect + middle + Crlf + lines + Crlf;
    assert r == Connect + (middle + Crlf + lines + Crlf);
    var s := Connect + middle + Crlf + lines;
    if lines == [] {
      assert s == (Connect + middle) + Crlf;
    } else {
      assert s == (Connect + middle + Crlf) + lines;
    }
    assert s[|s| - 2..] == Crlf;
  }

  lemma {:induction false} HeaderLinesConcat(a: HeaderMap, b: HeaderMap)
    ensures HeaderLines(a + b) == HeaderLines(a) + HeaderLines(b)
    decreases |b|
  {
    if b != [] {
      var b', x := b[..|b| - 1], b[|b| - 1];
      calc {
        HeaderLines(a + b);
        == { assert (a + b)[..|a + b| - 1] == a + b' && (a + b)[|a + b| - 1] == x; }
        HeaderLines(a + b') + HeaderLine(x);
        == { HeaderLinesConcat(a, b'); }
        HeaderLines(a) + HeaderLines(b') + HeaderLine(x);
        HeaderLines(a) + (HeaderLines(b') + HeaderLine(x));
        HeaderLines(a) + HeaderLines(b);
      }
    } else {
      assert a + b == a;
    }
  }

  /** The lines of the headers are the lines of the first `i` of them, then the lines of the others. */
  lemma HeaderLinesSplit(headers: HeaderMap, i: nat)
    requires i <= |headers|
    ensures HeaderLines(headers) == HeaderLines(headers[..i]) + HeaderLines(headers[i..])
  {
    TakeDrop(headers, i);
    HeaderLinesConcat(headers[..i], headers[i..]);
  }

  lemma TakeDrop(headers: HeaderMap, i: nat)
    requires i <= |headers|
    ensures headers[..i] + headers[i..] == headers
  {
  }

  /** The lines of one more header: the next header's line is appended. */
  lemma HeaderLinesSnoc(headers: HeaderMap, i: nat)
    requires i < |headers|
    ensures var h := headers[i];
            HeaderLines(headers[..i + 1]) == HeaderLines(headers[..i]) + h.name + Separator + h.value + Crlf
  {
    assert headers[..i + 1][..i] == headers[..i];
    var before, h := HeaderLines(headers[..i]), headers[i];
    assert before + HeaderLine(h) == before + h.name + Separator + h.value + Crlf;
  }

  /**
   * Every header is copied byte for byte, in map order: header `i`'s name,
   * `": "`, its value and CRLF come right after the lines of the headers
   * before it and right before the lines of the headers after it.
   */
  lemma HeaderCopiedVerbatim(headers: HeaderMap, i: nat)
    requires i < |headers|
    ensures var h := headers[i];
            HeaderLines(headers)
              == HeaderLines(headers[..i]) + h.name + Separator + h.value + Crlf + HeaderLines(headers[i + 1..])
  {
    assert headers[..i + 1] + headers[i + 1..] == headers;
    HeaderLinesConcat(headers[..i + 1], headers[i + 1..]);
    HeaderLinesSnoc(headers, i);
  }

  /** A piece of a sequence, found again at the length of what precedes it. */
  lemma Slice(pre: seq<byte>, piece: seq<byte>, s: seq<byte>)
    requires pre + piece <= s
    ensures |pre| + |piece| <= |s| && s[|pre|..|pre| + |piece|] == piece
  {
    assert s[..|pre| + |piece|] == pre + piece;
  }

  /** No headers, no header lines: the request ends right after the Host line. */
  lemma EmptyHeaderMap(host: seq<byte>, port: u16)
    ensures var target := HostPort(host, port);
            RequestBytes(host, port, []) == Connect + target + Version + HostName + target + Crlf + Crlf
  {
  }

  /**
   * The request target appears twice, identically: once in the request line
   * after `CONNECT `, once as the value of the Host header; the header lines
   * sit between the Host line and the final empty line.
   */
  lemma TargetInBothLines(host: seq<byte>, port: u16, headers: HeaderMap)
    ensures var r := RequestBytes(host, port, headers);
            var hp := HostPort(host, port);
            var n := |hp|;
            && |r| == 2 * n + 29 + |HeaderLines(headers)|
            && r[..8] == Connect
            && r[8..8 + n] == hp
            && r[8 + n..19 + n] == Version
            && r[19 + n..25 + n] == HostName
            && r[25 + n..25 + 2 * n] == hp
            && r[25 + 2 * n..27 + 2 * n] == Crlf
            && r[27 + 2 * n..|r| - 2] == HeaderLines(headers)
            && r[|r| - 2..] == Crlf
  {
    RequestLayout(HostPort(host, port), HeaderLines(headers));
  }

  /** Where each piece of a request with this target and these header lines sits. */
  lemma RequestLayout(hp: seq<byte>, lines: seq<byte>)
    ensures var r := Connect + hp + Version + HostName + hp + Crlf + lines + Crlf;
            var n := |hp|;
            && |r| == 2 * n + 29 + |lines|
            && r[..8] == Connect
            && r[8..8 + n] == hp
            && r[8 + n..19 + n] == Version
            && r[19 + n..25 + n] == HostName
            && r[25 + n..25 + 2 * n] == hp
            && r[25 + 2 * n..27 + 2 * n] == Crlf
            && r[27 + 2 * n..|r| - 2] == lines
            && r[|r| - 2..] == Crlf
  {
    var s2 := Connect + hp;
    var s3 := s2 + Version;
    var s4 := s3 + HostName;
    var s5 := s4 + hp;
    var s6 := s5 + Crlf;
    var s7 := s6 + lines;
    var r := s7 + Crlf;
    assert s2 <= r && s3 <= r && s4 <= r && s5 <= r && s6 <= r && s7 <= r;
    Slice([], Connect, r);
    Slice(Connect, hp, r);
    Slice(s2, Version, r);
    Slice(s3, HostName, r);
    Slice(s4, hp, r);
    Slice(s5, Crlf, r);
    Slice(s6, lines, r);
    Slice(s7, Crlf, r);
  }

  /** Every point at which the writes of a request can stop is a prefix of the request. */
  lemma RequestPrefixes(hp: seq<byte>, lines: seq<byte>)
    ensures var s1 := Connect;
            var s2 := s1 + hp;
            var s3 := s2 + Version;
            var s4 := s3 + HostName;
            var s5 := s4 + hp;
            var s6 := s5 + Crlf;
            var s7 := s6 + lines;
            var r := s7 + Crlf;
            s1 <= r && s2 <= r && s3 <= r && s4 <= r && s5 <= r && s6 <= r && s7 <= r
  {
  }

  /** Every point at which the writes of a header line can stop is a prefix of all the lines. */
  lemma LinePrefixes(before: seq<byte>, h: Header, after: seq<byte>)
    ensures var s1 := before + h.name;
            var s2 := s1 + Separator;
            var s3 := s2 + h.value;
            var s4 := s3 + Crlf;
            var r := s4 + after;
            s1 <= r && s2 <= r && s3 <= r && s4 <= r
  {
  }

  /** `write_headers`: four `write_all`s per header, stopping at the first failure. */
  method WriteHeaders(w: Sink, headers: HeaderMap) returns (r: Result<()>)
    modifies w
    ensures WroteAll(old(w.data), old(w.room), HeaderLines(headers), w.data, w.room, r.Ok?)
    ensures w.closed == old(w.closed) && w.flushed == old(w.flushed)
  {
    ghost var d0, r0 := w.data, w.room;
    var i := 0;
    while i < |headers|
      invariant 0 <= i <= |headers|
      invariant WroteAll(d0, r0, HeaderLines(headers[..i]), w.data, w.room, true)
      invariant w.closed == old(w.closed) && w.flushed == old(w.flushed)
    {
      var h := headers[i];
      ghost var before := HeaderLines(headers[..i]);
      ghost var after := HeaderLines(headers[i + 1..]);
      HeaderLinesSnoc(headers, i);
      HeaderLinesSplit(headers, i + 1);
      LinePrefixes(before, h, after);

      ghost var d1, r1 := w.data, w.room;
      r := w.WriteAll(h.name);
      WroteAllThen(d0, r0, before, d1, r1, h.name, w.data, w.room, r.Ok?);
      if r.Err? {
        WroteAllStop(d0, r0, before + h.name, HeaderLines(headers), w.data, w.room);
        return;
      }
      d1, r1 := w.data, w.room;
      r := w.WriteAll(Separator);
      WroteAllThen(d0, r0, before + h.name, d1, r1, Separator, w.data, w.room, r.Ok?);
      if r.Err? {
        WroteAllStop(d0, r0, before + h.name + Separator, HeaderLines(headers), w.data, w.room);
        return;
      }
      d1, r1 := w.data, w.room;
      r := w.WriteAll(h.value);
      WroteAllThen(d0, r0, before + h.name + Separator, d1, r1, h.value, w.data, w.room, r.Ok?);
      if r.Err? {
        WroteAllStop(d0, r0, before + h.name + Separator + h.value, HeaderLines(headers), w.data, w.room);
        return;
      }
      d1, r1 := w.data, w.room;
      r := w.WriteAll(Crlf);
      WroteAllThen(d0, r0, before + h.name + Separator + h.value, d1, r1, Crlf, w.data, w.room, r.Ok?);
      if r.Err? {
        WroteAllStop(d0, r0, before + h.name + Separator + h.value + Crlf, HeaderLines(headers), w.data, w.room);
        return;
      }
      i := i + 1;
    }
    assert headers[..i] == headers;
    r := Ok(());
  }

  /** `write_host_port`: the host, a colon, then the port through `write!`. */
  method WriteHostPort(w: Sink, host: seq<byte>, port: u16) returns (r: Result<()>)
    modifies w
    ensures WroteAll(old(w.data), old(w.room), HostPort(host, port), w.data, w.room, r.Ok?)
    ensures w.closed == old(w.closed) && w.flushed == old(w.flushed)
  {
    ghost var whole := HostPort(host, port);
    ghost var d0, r0 := w.data, w.room;
    var digits := Decimal(port);
    r := w.WriteAll(host);
    if r.Err? {
      WroteAllStop(d0, r0, host, whole, w.data, w.room);
      return;
    }
    ghost var d1, r1 := w.data, w.room;
    r := w.WriteAll(Colon);
    WroteAllThen(d0, r0, host, d1, r1, Colon, w.data, w.room, r.Ok?);
    if r.Err? {
      WroteAllStop(d0, r0, host + Colon, whole, w.data, w.room);
      return;
    }
    d1, r1 := w.data, w.room;
    r := w.WriteAll(digits);
    WroteAllThen(d0, r0, host + Colon, d1, r1, digits, w.data, w.room, r.Ok?);
  }

  /** `write`: the request line, the Host line, the headers and the empty line. */
  method Write(w: Sink, host: seq<byte>, port: u16, headers: HeaderMap) returns (r: Result<()>)
    modifies w
    ensures WroteAll(old(w.data), old(w.room), RequestBytes(host, port, headers), w.data, w.room, r.Ok?)
    ensures w.closed == old(w.closed) && w.flushed == old(w.flushed)
  {
    ghost var d0, r0 := w.data, w.room;
    ghost var target, lines := HostPort(host, port), HeaderLines(headers);
    ghost var whole := RequestBytes(host, port, headers);
    RequestPrefixes(target, lines);
    ghost var d1, r1 := w.data, w.room;
    r := w.WriteAll(Connect);
    if r.Err? {
      WroteAllStop(d0, r0, Connect, whole, w.data, w.room);
      return;
    }

    d1, r1 := w.data, w.room;
    r := WriteHostPort(w, host, port);
    WroteAllThen(d0, r0, Connect, d1, r1, target, w.data, w.room, r.Ok?);
    if r.Err? {
      WroteAllStop(d0, r0, Connect + target, whole, w.data, w.room);
      return;
    }

    d1, r1 := w.data, w.room;
    r := w.WriteAll(Version);
    WroteAllThen(d0, r0, Connect + target, d1, r1, Version, w.data, w.room, r.Ok?);
    if r.Err? {
      WroteAllStop(d0, r0, Connect + target + Version, whole, w.data, w.room);
      return;
    }

    d1, r1 := w.data, w.room;
    r := w.WriteAll(HostName);
    WroteAllThen(d0, r0, Connect + target + Version, d1, r1, HostName, w.data, w.room, r.Ok?);
    if r.Err? {
      WroteAllStop(d0, r0, Connect + target + Version + HostName, whole, w.data, w.room);
      return;
    }

    d1, r1 := w.data, w.room;
    r := WriteHostPort(w, host, port);
    WroteAllThen(d0, r0, Connect + target + Version + HostName, d1, r1, target, w.data, w.room, r.Ok?);
    if r.Err? {
      WroteAllStop(d0, r0, Connect + target + Version + HostName + target, whole, w.data, w.room);
      return;
    }

    d1, r1 := w.data, w.room;
    r := w.WriteAll(Crlf);
    WroteAllThen(d0, r0, Connect + target + Version + HostName + target, d1, r1, Crlf, w.data, w.room, r.Ok?);
    if r.Err? {
      WroteAllStop(d0, r0, Connect + target + Version + HostName + target + Crlf, whole, w.data, w.room);
      return;
    }

    d1, r1 := w.data, w.room;
    r := WriteHeaders(w, headers);
    WroteAllThen(d0, r0, Connect + target + Version + HostName + target + Crlf, d1, r1, lines, w.data, w.room, r.Ok?);
    if r.Err? {
      WroteAllStop(d0, r0, Connect + target + Version + HostName + target + Crlf + lines, whole, w.data, w.room);
      return;
    }

    d1, r1 := w.data, w.room;
    r := w.WriteAll(Crlf);
    WroteAllThen(d0, r0, Connect + target + Version + HostName + target + Crlf + lines, d1, r1, Crlf, w.data, w.room, r.Ok?);
  }

  lemma AsciiAppend(s: string, t: string)
    ensures Ascii(s + t) == Ascii(s) + Ascii(t)
  {
  }

  /** The test target `127.0.0.1:8080`, rendered. */
  lemma ExampleTarget()
    ensures HostPort(Ascii("127.0.0.1"), 8080) == Ascii("127.0.0.1:8080")
  {
    assert Decimal(8080) == [0x38, 0x30, 0x38, 0x30] by {
      assert Decimal(8) == [0x38];
      assert Decimal(80) == [0x38, 0x30];
      assert Decimal(808) == [0x38, 0x30, 0x38];
    }
    assert "127.0.0.1:8080" == "127.0.0.1" + ":" + "8080";
    AsciiLiterals();
    AsciiAppend("127.0.0.1" + ":", "8080");
    AsciiAppend("127.0.0.1", ":");
  }

  /** The literals of the encoder, spelled as ASCII text. */
  lemma AsciiLiterals()
    ensures Ascii("CONNECT ") == Connect
    ensures Ascii(" HTTP/1.1\r\n") == Version
    ensures Ascii("Host: ") == HostName
    ensures Ascii(":") == Colon
    ensures Ascii(": ") == Separator
    ensures Ascii("\r\n") == Crlf
  {
  }

  lemma AsciiJoin3(a: string, b: string, c: string)
    ensures Ascii(a + b + c) == Ascii(a) + Ascii(b) + Ascii(c)
  {
    AsciiAppend(a + b, c);
    AsciiAppend(a, b);
  }

  lemma AsciiJoin4(a: string, b: string, c: string, d: string)
    ensures Ascii(a + b + c + d) == Ascii(a) + Ascii(b) + Ascii(c) + Ascii(d)
  {
    AsciiAppend(a + b + c, d);
    AsciiJoin3(a, b, c);
  }

  /** A single header renders as its one line. */
  lemma ExampleLine(name: string, value: string)
    ensures HeaderLines([Header(Ascii(name), Ascii(value))]) == Ascii(name + ": " + value + "\r\n")
  {
    var h := Header(Ascii(name), Ascii(value));
    assert [h][..0] == [];
    AsciiLiterals();
    AsciiJoin4(name, ": ", value, "\r\n");
  }

  lemma Regroup6(a: seq<byte>, b: seq<byte>, c: seq<byte>, d: seq<byte>, e: seq<byte>, f: seq<byte>)
    ensures a + b + c + d + e + f == (a + b + c) + (d + e + f)
  {
  }

  lemma ExampleRequestLine()
    ensures "CONNECT " + "127.0.0.1:8080" + " HTTP/1.1\r\n" == "CONNECT 127.0.0.1:8080 HTTP/1.1\r\n"
  {
  }

  lemma ExampleHostLine()
    ensures "Host: " + "127.0.0.1:8080" + "\r\n" == "Host: 127.0.0.1:8080\r\n"
  {
  }

  /** The encoder's output for target `127.0.0.1:8080`: the test's request line and Host line, the header lines, and the blank line. */
  lemma ExampleRequest(headers: HeaderMap)
    ensures RequestBytes(Ascii("127.0.0.1"), 8080, headers)
         == Ascii("CONNECT 127.0.0.1:8080 HTTP/1.1\r\n") + Ascii("Host: 127.0.0.1:8080\r\n") + HeaderLines(headers) + Crlf
  {
    var t := "127.0.0.1:8080";
    ExampleTarget();
    AsciiLiterals();
    ExampleRequestLine();
    ExampleHostLine();
    AsciiJoin3("CONNECT ", t, " HTTP/1.1\r\n");
    AsciiJoin3("Host: ", t, "\r\n");
    Regroup6(Connect, Ascii(t), Version, HostName, Ascii(t), Crlf);
  }

  /** The encoder's output for the request test of src/flow.rs without headers. */
  lemma RequestExample()
    ensures RequestBytes(Ascii("127.0.0.1"), 8080, [])
         == Ascii("CONNECT 127.0.0.1:8080 HTTP/1.1\r\n" + "Host: 127.0.0.1:8080\r\n" + "\r\n")
  {
    ExampleRequest([]);
    AsciiLiterals();
    assert HeaderLines([]) == [];
    AsciiJoin3("CONNECT 127.0.0.1:8080 HTTP/1.1\r\n", "Host: 127.0.0.1:8080\r\n", "\r\n");
  }

  lemma AuthorizationLine()
    ensures "proxy-authorization" + ": " + "Basic aGVsbG86d29ybGQ=" + "\r\n" == "proxy-authorization: Basic aGVsbG86d29ybGQ=\r\n"
  {
  }

  /** The encoder's output for the request test of src/flow.rs with a `proxy-authorization` header. */
  lemma RequestExampleWithHeader()
    ensures RequestBytes(Ascii("127.0.0.1"), 8080,
                         [Header(Ascii("proxy-authorization"), Ascii("Basic aGVsbG86d29ybGQ="))])
         == Ascii("CONNECT 127.0.0.1:8080 HTTP/1.1\r\n" + "Host: 127.0.0.1:8080\r\n"
                  + "proxy-authorization: Basic aGVsbG86d29ybGQ=\r\n" + "\r\n")
  {
    var line := "proxy-authorization: Basic aGVsbG86d29ybGQ=\r\n";
    ExampleRequest([Header(Ascii("proxy-authorization"), Ascii("Basic aGVsbG86d29ybGQ="))]);
    ExampleLine("proxy-authorization", "Basic aGVsbG86d29ybGQ=");
    AuthorizationLine();
    AsciiLiterals();
    AsciiJoin4("CONNECT 127.0.0.1:8080 HTTP/1.1\r\n", "Host: 127.0.0.1:8080\r\n", line, "\r\n");
  }
}

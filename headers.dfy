/**
 * Header names and values as the `http` crate's `HeaderName` and
 * `HeaderValue` accept them, and the header map as an ordered list of pairs.
 */
module Headers {
  import opened Io

  datatype Header = Header(name: seq<byte>, value: seq<byte>)

  /** A header map in iteration order; inserting appends. */
  type HeaderMap = seq<Header>

  /** An RFC 9110 `tchar`: the bytes a header name (a token) is made of. */
  predicate IsTokenByte(b: byte)
  {
    || (0x30 <= b <= 0x39)                 // DIGIT
    || (0x41 <= b <= 0x5A) || (0x61 <= b <= 0x7A)  // ALPHA
    || b in {0x21, 0x23, 0x24, 0x25, 0x26, 0x27, 0x2A, 0x2B, 0x2D, 0x2E, 0x5E, 0x5F, 0x60, 0x7C, 0x7E}
  }

  /** What `HeaderName::from_bytes` accepts: a non-empty token. */
  predicate ValidName(name: seq<byte>)
  {
    |name| > 0 && forall i :: 0 <= i < |name| ==> IsTokenByte(name[i])
  }

  /** What `HeaderValue::from_bytes` accepts: visible bytes, spaces and tabs. */
  predicate ValidValue(value: seq<byte>)
  {
    forall i :: 0 <= i < |value| ==> value[i] == 0x09 || (0x20 <= value[i] && value[i] != 0x7F)
  }
}

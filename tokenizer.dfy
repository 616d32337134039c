/**
 * The HTTP response-head tokenizer the receiver relies on (the `httparse`
 * crate), kept abstract: the receiver takes it as a function parameter, and
 * `Sound` is everything the receiver assumes of it.
 */
module Tokenizer {
  import opened Io
  import opened Headers

  /** A header as the tokenizer reports it, borrowing from the input. */
  datatype RawHeader = RawHeader(name: seq<byte>, value: seq<byte>)

  /** The fields a parse fills in; they are all set once a parse is complete. */
  datatype Response = Response(code: Option<u16>, reason: Option<string>, headers: seq<RawHeader>)

  /** `Ok(Partial)`, `Ok(Complete(consumed))` or `Err(_)` of `Response::parse`. */
  datatype Status = Partial | Complete(consumed: nat, response: Response) | Malformed

  type Parser = seq<byte> -> Status

  /** A complete response: status code and reason present, headers acceptable to the header map. */
  predicate IsComplete(response: Response)
  {
    && response.code.Some?
    && response.reason.Some?
    && forall i :: 0 <= i < |response.headers| ==>
         ValidName(response.headers[i].name) && ValidValue(response.headers[i].value)
  }

  /** A complete parse never consumes more than it was given and fills in a complete response. */
  ghost predicate Sound(parse: Parser)
  {
    forall bytes: seq<byte> :: parse(bytes).Complete? ==>
      parse(bytes).consumed <= |bytes| && IsComplete(parse(bytes).response)
  }
}

/** `check_username`: decides one candidate name. A name whose trimmed form
    is shorter than 3 or longer than 16 bytes is answered `Ok(false)` at once;
    any other name costs one HTTP request, whose outcome is an input here. */
module Probe {
  import opened RustCore
  import opened RustStr

  /** Bounds of the pre-filter, in bytes of the trimmed name. */
  const MinNameLen: nat := 3
  const MaxNameLen: nat := 16

  /** An HTTP status code; `reqwest` only represents codes 100 to 999. */
  newtype StatusCode = x: int | 100 <= x < 1000 witness 200

  /** The error a failed `send().await` produces (connection refused,
      timeout, malformed response, ...). Its content is opaque. */
  datatype RequestError = RequestError(detail: string)

  /** What the request for an admitted name comes back with. */
  datatype Reply = Transport(error: RequestError) | Received(status: StatusCode)

  /** `StatusCode::is_success`: the 2xx range. */
  predicate IsSuccess(status: StatusCode)
    ensures IsSuccess(status) <==> status as int / 100 == 2
  {
    200 <= status < 300
  }

  /** True when the trimmed name is within the length bounds, that is, when
      `check_username` sends a request at all. An admitted name is never
      empty and has at most 16 characters; since a character takes 1 to 4
      bytes, the byte bounds match character bounds only on ASCII text. */
  predicate Admitted(name: string)
    ensures Admitted(name) ==> 1 <= |Trim(name)| <= MaxNameLen
    ensures |Trim(name)| > MaxNameLen ==> !Admitted(name)
  {
    MinNameLen <= ByteLen(Trim(name)) <= MaxNameLen
  }

  /** `check_username`. `reply` is what the request would return; it is only
      consulted for an admitted name. */
  function CheckUsername(name: string, reply: Reply): (r: Result<bool, RequestError>)
    ensures !Admitted(name) ==> r == Ok(false)
    ensures Admitted(name) ==> (r.Err? <==> reply.Transport?)
    ensures Admitted(name) && reply.Transport? ==> r.error == reply.error
    ensures r == Ok(true) <==> Admitted(name) && reply.Received? && IsSuccess(reply.status)
  {
    if !Admitted(name) then
      Ok(false)
    else
      match reply
      case Transport(e) => Err(e)
      case Received(status) => Ok(IsSuccess(status))
  }

  /** A name the pre-filter rejects gets the same answer whatever the network
      would have said: no request is made for it. */
  lemma RejectedNameIgnoresReply(name: string, reply1: Reply, reply2: Reply)
    requires !Admitted(name)
    ensures CheckUsername(name, reply1) == CheckUsername(name, reply2) == Ok(false)
  {
  }

  /** On ASCII names the pre-filter is exactly "3 to 16 characters". */
  lemma AsciiAdmittedByCharCount(name: string)
    requires IsAscii(Trim(name))
    ensures Admitted(name) <==> MinNameLen <= |Trim(name)| <= MaxNameLen
  {
    AsciiByteLen(Trim(name));
  }

  /** Whitespace around a name (a trailing carriage return, say) changes
      nothing about the answer. */
  lemma PaddingIgnored(a: string, name: string, b: string, reply: Reply)
    requires AllWhitespace(a) && AllWhitespace(b)
    ensures CheckUsername(a + name + b, reply) == CheckUsername(name, reply)
  {
    TrimIgnoresPadding(a, name, b);
  }

  /** Two two-byte characters already pass the 3-byte lower bound, and nine
      of them exceed the 16-byte upper bound. */
  lemma MultiByteNames()
    ensures Admitted("\U{E9}\U{E9}") && |"\U{E9}\U{E9}"| == 2
    ensures !Admitted("\U{E9}\U{E9}\U{E9}\U{E9}\U{E9}\U{E9}\U{E9}\U{E9}\U{E9}")
  {
    var two := "\U{E9}\U{E9}";
    assert LeadingWhitespace(two) == 0 && TrailingWhitespace(two) == 0;
    assert Trim(two) == two;
    assert Utf8(two) == EncodeChar('\U{E9}') + Utf8(two[1..]);
    var nine := "\U{E9}\U{E9}\U{E9}\U{E9}\U{E9}\U{E9}\U{E9}\U{E9}\U{E9}";
    assert nine == two + two + two + two + [nine[0]];
    assert LeadingWhitespace(nine) == 0 && TrailingWhitespace(nine) == 0;
    assert Trim(nine) == nine;
    Utf8Concat(two, two);
    Utf8Concat(two + two, two + two);
    Utf8Concat(two + two + two + two, [nine[0]]);
    assert two + two + (two + two) == two + two + two + two;
  }
}

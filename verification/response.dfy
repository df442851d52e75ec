/** `Response`: the raw transport response, when there is one, and the body
    bytes the client read, with accessors that never fail. */
module HttpResponse {
  import opened Wrappers
  import opened ByteStrings
  import Multimap
  import HttpHeader

  /** The parts of Go's `*http.Response` the accessors read. */
  datatype RawResponse = RawResponse(status: string, statusCode: int, header: HttpHeader.Header)

  /** `rawResponse` is `None` for the empty `&Response{}` returned on every
      error path; `body` is `None` while no body has been read. */
  datatype Response = Response(rawResponse: Option<RawResponse>, body: Option<Bytes>)

  /** The response every error path returns. */
  const Empty: Response := Response(None, None)

  /** The status line, "" without a raw response. */
  function Status(r: Response): (s: string)
    ensures r.rawResponse.None? ==> s == ""
    ensures r.rawResponse.Some? ==> s == r.rawResponse.value.status
  {
    match r.rawResponse
    case None => ""
    case Some(raw) => raw.status
  }

  /** The status code, 0 without a raw response. */
  function StatusCode(r: Response): (c: int)
    ensures r.rawResponse.None? ==> c == 0
    ensures r.rawResponse.Some? ==> c == r.rawResponse.value.statusCode
  {
    match r.rawResponse
    case None => 0
    case Some(raw) => raw.statusCode
  }

  /** The response header, an empty header without a raw response. */
  function Header(r: Response): (h: HttpHeader.Header)
    ensures r.rawResponse.None? ==> h == map[]
    ensures r.rawResponse.Some? ==> h == r.rawResponse.value.header
  {
    match r.rawResponse
    case None => map[]
    case Some(raw) => raw.header
  }

  /** The body as read, an empty slice when none was. */
  function Body(r: Response): (b: Bytes)
    ensures r.body.None? ==> b == []
    ensures r.body.Some? ==> b == r.body.value
  {
    match r.body
    case None => []
    case Some(b) => b
  }

  /** The body as text with surrounding white space cut; "" for no body. */
  function String(r: Response): (s: Bytes)
    ensures TrimmedFrom(Body(r), s) && Tight(s)
  {
    match r.body
    case None => NothingToTrim(); []
    case Some(b) => TrimSpace(b)
  }

  lemma NothingToTrim()
    ensures TrimmedFrom([], []) && TrimSpace([]) == []
  {
    var e: Bytes := [];
    assert e[0..0] == e && e[..0] == e && e[0..] == e;
  }

  /** `String` is the trimming of `Body`, and trimming it again changes
      nothing. */
  lemma StringOfBody(r: Response)
    ensures String(r) == TrimSpace(Body(r))
    ensures TrimSpace(String(r)) == String(r)
  {
    NothingToTrim();
    TrimSpaceIdempotent(Body(r));
  }

  /** A body without surrounding white space comes back whole. */
  lemma StringOfTightBody(r: Response)
    requires Tight(Body(r))
    ensures String(r) == Body(r)
  {
    StringOfBody(r);
    TrimTight(Body(r));
  }

  /** `199 < StatusCode < 300`. */
  predicate IsSuccess(r: Response) {
    StatusCode(r) > 199 && StatusCode(r) < 300
  }

  /** `StatusCode > 399`. */
  predicate IsError(r: Response) {
    StatusCode(r) > 399
  }

  /** The class of a status code, its first digit (section 15 of RFC
      9110). */
  function Class(code: int): int {
    code / 100
  }

  /** Success is exactly the 2xx class, and error exactly the classes from
      4xx on (client and server errors, and anything above). */
  lemma StatusClasses(r: Response)
    ensures IsSuccess(r) <==> Class(StatusCode(r)) == 2
    ensures IsError(r) <==> Class(StatusCode(r)) >= 4
  {
  }

  /** No response is both a success and an error, and the empty response
      is neither; informational and redirect codes are neither too. */
  lemma SuccessErrorExclusive(r: Response)
    ensures !(IsSuccess(r) && IsError(r))
    ensures r.rawResponse.None? ==> !IsSuccess(r) && !IsError(r)
    ensures 1 <= Class(StatusCode(r)) <= 3 && Class(StatusCode(r)) != 2 ==> !IsSuccess(r) && !IsError(r)
  {
  }

  /** The accessors read the raw response only: a response with the same
      raw response answers the same, whatever its body. */
  lemma StatusIgnoresBody(r: Response, s: Response)
    requires r.rawResponse == s.rawResponse
    ensures Status(r) == Status(s) && StatusCode(r) == StatusCode(s) && Header(r) == Header(s)
    ensures IsSuccess(r) == IsSuccess(s) && IsError(r) == IsError(s)
  {
  }
}

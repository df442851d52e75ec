/** The fluent `Request` of request.go: setters that fill its fields, and
    `Execute` up to the point where the transport takes over. */
module FluentRequest {
  import opened Wrappers
  import opened GoMaps
  import opened ByteStrings
  import opened Scalars
  import opened Template
  import Multimap
  import HttpHeader
  import MediaType
  import QueryBuild
  import UrlValues

  /** The dynamic `Body` field: nil, an `io.Reader` over some bytes (what
      `SetBody` stores), or a value of any other type a caller assigned. */
  datatype Body = NoBody | Reader(data: Bytes) | NotReader

  /** `Request`. `client` stands for the unexported `*Client`: `None` when the
      request was made without one, otherwise the text `baseURL.String()`
      gives. A nil `Header`, `Params` or `Query` is `None`. */
  datatype Request = Request(
    body: Body,
    header: Option<HttpHeader.Header>,
    params: Option<Entries<Value>>,
    path: string,
    query: Option<Multimap.Values>,
    url: string,
    client: Option<string>)

  /** `&Request{}`. */
  const Zero: Request := Request(NoBody, None, None, "", None, "", None)

  /** The `*http.Request` `Execute` builds for the transport. `rawQuery` is
      `None` when `Execute` leaves the query `http.NewRequest` parsed alone. */
  datatype Prepared = Prepared(verb: string, url: string, body: Option<Bytes>, header: Option<HttpHeader.Header>, rawQuery: Option<string>)

  /** Why `Execute` stops before the transport. */
  datatype Failure = ClientMissing | NewRequestFailed(reason: string)

  /** The header as Go reads it: a nil map reads as an empty one. */
  function HeaderOf(r: Request): HttpHeader.Header {
    match r.header
    case None => map[]
    case Some(h) => h
  }

  /** `r.Header.Get("Content-Type")`. */
  function ContentType(r: Request): string {
    HttpHeader.Get(HeaderOf(r), "Content-Type")
  }

  /** `SetQuery` (through `parseQuery`): the query is rebuilt from scratch
      from the supported values of `query`, one text per key, whatever it
      held before; no other field changes. */
  function SetQuery(r: Request, query: Entries<Value>): (s: Request)
    ensures s.query.Some? && s.query.value.Keys == QueryBuild.SupportedKeys(query)
    ensures forall k | k in s.query.value :: s.query.value[k] == [QueryBuild.TextFor(query, k)]
    ensures s == r.(query := s.query)
  {
    QueryBuild.BuildKeys(query);
    r.(query := Some(QueryBuild.Build(query)))
  }

  /** The query `SetQuery` stores encodes to exactly the supported keys of
      `query` in increasing order, each with its text. */
  lemma SetQueryEncodes(r: Request, query: Entries<Value>)
    ensures UrlValues.DecodePairs(UrlValues.Encode(SetQuery(r, query).query.value)) == Some(QueryBuild.Listing(query))
  {
    QueryBuild.BuildPairs(query);
  }

  /** What the request held before does not show through `SetQuery`. */
  lemma SetQueryForgets(r: Request, prior: Option<Multimap.Values>, query: Entries<Value>)
    ensures SetQuery(r.(query := prior), query) == SetQuery(r, query).(query := SetQuery(r, query).query)
    ensures SetQuery(r.(query := prior), query).query == SetQuery(r, query).query
  {
  }

  /** `SetParams`: the params are stored for `Execute`; nothing else changes. */
  function SetParams(r: Request, params: Entries<Value>): (s: Request)
    ensures s.params == Some(params) && s == r.(params := s.params)
  {
    r.(params := Some(params))
  }

  /** The params as `parsePath` ranges over them: nil ranges over nothing. */
  function ParamsOf(params: Option<Entries<Value>>): Entries<Value> {
    match params
    case None => []
    case Some(ps) => ps
  }

  /** `parsePath`: the path with each param's placeholder filled in
      iteration order. Without params, or when no param has a text, the
      path is stored as given. */
  function ParsePath(r: Request, path: string, params: Option<Entries<Value>>): (s: Request)
    ensures (forall i | 0 <= i < |ParamsOf(params)| :: PathText(ParamsOf(params)[i].1) == "") ==> s.path == path
    ensures params.None? ==> s.path == path
    ensures s == r.(path := s.path)
  {
    r.(path := Resolve(path, ParamsOf(params)))
  }

  /** `SetHeader`: a nil header is created, then the value is appended to
      the list of the canonical key; no other key and no other field
      changes. */
  function SetHeader(r: Request, key: string, value: string): (s: Request)
    ensures s.header.Some?
    ensures s.header.value.Keys == HeaderOf(r).Keys + {HttpHeader.CanonicalKey(key)}
    ensures Multimap.ValuesOf(s.header.value, HttpHeader.CanonicalKey(key)) == Multimap.ValuesOf(HeaderOf(r), HttpHeader.CanonicalKey(key)) + [value]
    ensures forall k | k != HttpHeader.CanonicalKey(key) :: Multimap.ValuesOf(s.header.value, k) == Multimap.ValuesOf(HeaderOf(r), k)
    ensures s == r.(header := s.header)
  {
    r.(header := Some(HttpHeader.Add(HeaderOf(r), key, value)))
  }

  /** `SetHeaders`: a nil header is created, then every entry replaces the
      list of its canonical key (the later of two entries with the same
      canonical key wins); other keys and other fields are unchanged. */
  function SetHeaders(r: Request, header: Entries<string>): (s: Request)
    ensures s.header.Some?
    ensures s.header.value.Keys == HeaderOf(r).Keys + HttpHeader.KeysOf(header)
    ensures forall c | HttpHeader.LastFor(header, c).Some? :: Multimap.ValuesOf(s.header.value, c) == [HttpHeader.LastFor(header, c).value]
    ensures forall c | HttpHeader.LastFor(header, c).None? :: Multimap.ValuesOf(s.header.value, c) == Multimap.ValuesOf(HeaderOf(r), c)
    ensures s == r.(header := s.header)
  {
    r.(header := Some(HttpHeader.SetAll(HeaderOf(r), header)))
  }

  /** An entry of `SetHeaders` that no later entry overrides is what `Get`
      reads back, under any spelling of its key. */
  lemma SetHeadersEntry(r: Request, header: Entries<string>, i: nat, spelling: string)
    requires i < |header|
    requires forall j | i < j < |header| :: !HttpHeader.Names(header[j], HttpHeader.CanonicalKey(header[i].0))
    requires HttpHeader.CanonicalKey(spelling) == HttpHeader.CanonicalKey(header[i].0)
    ensures Multimap.ValuesOf(SetHeaders(r, header).header.value, HttpHeader.CanonicalKey(header[i].0)) == [header[i].1]
    ensures HttpHeader.Get(SetHeaders(r, header).header.value, spelling) == header[i].1
  {
    HttpHeader.LastForEntry(header, i);
  }

  /** `SetHeader` appends where `SetHeaders` overwrites: after a `SetHeader`
      of a key holding values, the key holds one more value, while
      `SetHeaders` with the same pair leaves exactly one. */
  lemma AppendVersusOverwrite(r: Request, key: string, value: string)
    requires Multimap.ValuesOf(HeaderOf(r), HttpHeader.CanonicalKey(key)) != []
    ensures |Multimap.ValuesOf(SetHeader(r, key, value).header.value, HttpHeader.CanonicalKey(key))| >= 2
    ensures Multimap.ValuesOf(SetHeaders(r, [(key, value)]).header.value, HttpHeader.CanonicalKey(key)) == [value]
  {
    var single: Entries<string> := [(key, value)];
    HttpHeader.LastForEntry(single, 0);
  }

  /** Canonical forms of the keys the request tests use. */
  lemma TestNKeys()
    ensures HttpHeader.CanonicalKey("test1") == "Test1"
    ensures HttpHeader.CanonicalKey("test2") == "Test2"
  {
    var a := HttpHeader.CanonicalKey("test1");
    assert HttpHeader.AllToken("test1");
    assert a[0] == 'T' && a[1] == 'e' && a[2] == 's' && a[3] == 't' && a[4] == '1';
    var b := HttpHeader.CanonicalKey("test2");
    assert HttpHeader.AllToken("test2");
    assert b[0] == 'T' && b[1] == 'e' && b[2] == 's' && b[3] == 't' && b[4] == '2';
  }

  /** The single-header test: `SetHeader` on an empty request stores
      `test` as `Test`. */
  lemma SingleHeaderExample()
    ensures SetHeader(Zero, "test", "test").header == Some(map["Test" := ["test"]])
  {
    HttpHeader.TestKey();
    assert [] + ["test"] == ["test"];
  }

  /** The multiple-header test: two `SetHeader` calls store two keys. */
  lemma TwoHeadersExample()
    ensures SetHeader(SetHeader(Zero, "test1", "test"), "test2", "test").header == Some(map["Test1" := ["test"], "Test2" := ["test"]])
  {
    TestNKeys();
    assert [] + ["test"] == ["test"];
  }

  /** The `SetHeaders` test: both keys stored in canonical form. */
  lemma SetHeadersExample()
    ensures SetHeaders(Zero, [("test1", "test"), ("test2", "test")]).header == Some(map["Test1" := ["test"], "Test2" := ["test"]])
  {
    TestNKeys();
    var es := [("test1", "test"), ("test2", "test")];
    assert es[..1] == [("test1", "test")];
    assert es[..1][..0] == [];
  }

  /** `Content-Type` is already in canonical form. */
  lemma ContentTypeCanonical()
    ensures HttpHeader.CanonicalKey("Content-Type") == "Content-Type"
  {
    HttpHeader.ContentTypeKey();
    HttpHeader.CanonicalKeyIdempotent("content-type");
  }

  /** A nil header reads no Content-Type, and "" is not a JSON type: a
      JSON Content-Type implies there is a header. */
  lemma NilHeaderNotJson(r: Request)
    ensures r.header.None? ==> !MediaType.IsJSON(ContentType(r))
  {
    if r.header.None? {
      assert ContentType(r) == "";
      MediaType.IsJSONMatches("");
    }
  }

  /** `SetBody`, with the header created when it is nil as `SetHeader`
      does (`parseBody` as written writes to the nil map instead; see
      `SetBodyAsWritten`). A nil body changes nothing; a body that does not
      marshal leaves the body nil and the header alone; otherwise the body
      is a reader over the JSON bytes and afterwards the Content-Type is a
      JSON type: the one already there if it was one, else
      `application/json`, with no other key touched. */
  function SetBody<B>(r: Request, body: Option<B>, marshal: B -> Result<Bytes, string>): (s: Request)
    ensures body.None? ==> s == r
    ensures body.Some? && marshal(body.value).Err? ==> s == r.(body := NoBody)
    ensures body.Some? && marshal(body.value).Ok? ==>
      s == r.(body := Reader(marshal(body.value).value), header := s.header) && s.header.Some? && MediaType.IsJSON(ContentType(s))
    ensures body.Some? && marshal(body.value).Ok? && MediaType.IsJSON(ContentType(r)) ==> s.header == r.header
    ensures body.Some? && marshal(body.value).Ok? && !MediaType.IsJSON(ContentType(r)) ==>
      Multimap.ValuesOf(s.header.value, "Content-Type") == [MediaType.ContentTypeJson] &&
      forall k | k != "Content-Type" :: Multimap.ValuesOf(s.header.value, k) == Multimap.ValuesOf(HeaderOf(r), k)
  {
    NilHeaderNotJson(r);
    match body
    case None => r
    case Some(b) =>
      match marshal(b)
      case Err(_) => r.(body := NoBody)
      case Ok(data) =>
        if MediaType.IsJSON(ContentType(r)) then
          r.(body := Reader(data))
        else
          ContentTypeCanonical();
          MediaType.JsonIsJson();
          r.(body := Reader(data), header := Some(HttpHeader.Set(HeaderOf(r), "Content-Type", MediaType.ContentTypeJson)))
  }


  /** The message of the run-time panic Go raises on a write to a nil map. */
  const NilMapWrite: string := "assignment to entry in nil map"

  /** `SetBody` exactly as request.go writes it: `parseBody` calls
      `r.Header.Set` even when `r.Header` is nil, which panics. It panics
      exactly for a body that marshals on a request without a header, and
      otherwise agrees with `SetBody`. */
  function SetBodyAsWritten<B>(r: Request, body: Option<B>, marshal: B -> Result<Bytes, string>): (o: Result<Request, string>)
    ensures o.Err? <==> body.Some? && marshal(body.value).Ok? && r.header.None?
    ensures o.Ok? ==> o.value == SetBody(r, body, marshal)
  {
    NilHeaderNotJson(r);
    match body
    case None => Ok(r)
    case Some(b) =>
      match marshal(b)
      case Err(_) => Ok(r.(body := NoBody))
      case Ok(data) =>
        if MediaType.IsJSON(ContentType(r)) then
          Ok(r.(body := Reader(data)))
        else
          match r.header
          case None => Err(NilMapWrite)
          case Some(h) => Ok(r.(body := Reader(data), header := Some(HttpHeader.Set(h, "Content-Type", MediaType.ContentTypeJson))))
  }

  /** `(&Request{}).SetBody(v)` with any value that marshals panics. */
  lemma SetBodyPanicsOnZero<B>(v: B, marshal: B -> Result<Bytes, string>)
    requires marshal(v).Ok?
    ensures SetBodyAsWritten(Zero, Some(v), marshal) == Err(NilMapWrite)
  {
    NilHeaderNotJson(Zero);
  }

  /** The body test: a request with an empty header and a body that
      marshals ends with a non-nil body and a JSON Content-Type. */
  lemma SetBodyExample<B>(v: B, marshal: B -> Result<Bytes, string>)
    requires marshal(v).Ok?
    ensures SetBodyAsWritten(Zero.(header := Some(map[])), Some(v), marshal).Ok?
    ensures var s := SetBody(Zero.(header := Some(map[])), Some(v), marshal);
      s.body != NoBody && HttpHeader.Get(s.header.value, "Content-Type") == MediaType.ContentTypeJson
  {
    var r := Zero.(header := Some(map[]));
    assert ContentType(r) == "";
    NilHeaderNotJson(Zero);
    ContentTypeCanonical();
  }

  /** `parseURL`: the client's base URL followed by the path. */
  function ParseURL(r: Request): (s: Request)
    requires r.client.Some?
    ensures s.url == r.client.value + r.path && s == r.(url := s.url)
  {
    r.(url := r.client.value + r.path)
  }

  /** The reader `Execute` hands to `http.NewRequest`: the body when it is
      an `io.Reader`, nil otherwise. */
  function ReaderOf(b: Body): (d: Option<Bytes>)
    ensures d.Some? <==> b.Reader?
  {
    match b
    case Reader(data) => Some(data)
    case _ => None
  }

  /** `Execute` up to the transport call, with `http.NewRequest` as
      `newRequest` (its error, if any). Without a client it fails with
      `ClientMissing` and touches nothing. Otherwise the request's path
      becomes the resolved template and its URL the base URL followed by
      that path; the prepared request carries that URL, the request's own
      header (nil included), the body only when it is a reader, and the
      encoded query only when the request has one. */
  function Execute(r: Request, verb: string, path: string, newRequest: (string, string, Option<Bytes>) -> Option<string>): (res: (Request, Result<Prepared, Failure>))
    ensures r.client.None? ==> res == (r, Err(ClientMissing))
    ensures r.client.Some? ==> res.0 == r.(path := res.0.path, url := r.client.value + res.0.path)
    ensures r.client.Some? && r.params.None? ==> res.0.path == path
    ensures r.client.Some? && r.params.Some? ==> res.0.path == Resolve(path, r.params.value)
    ensures r.client.Some? ==> (res.1.Err? <==> newRequest(verb, res.0.url, ReaderOf(r.body)).Some?)
    ensures res.1.Ok? ==>
      res.1.value.verb == verb && res.1.value.url == res.0.url && res.1.value.header == r.header &&
      res.1.value.body == ReaderOf(r.body) && (res.1.value.rawQuery.Some? <==> r.query.Some?)
    ensures res.1.Ok? && r.query.Some? ==> res.1.value.rawQuery == Some(UrlValues.Encode(r.query.value))
    ensures res.1.Err? && res.1.error.NewRequestFailed? ==> newRequest(verb, res.0.url, ReaderOf(r.body)) == Some(res.1.error.reason)
  {
    if r.client.None? then (r, Err(ClientMissing))
    else
      var s := ParseURL(ParsePath(r, path, r.params));
      var rd := ReaderOf(s.body);
      match newRequest(verb, s.url, rd)
      case Some(e) => (s, Err(NewRequestFailed(e)))
      case None =>
        var rawQuery := match s.query case None => None case Some(q) => Some(UrlValues.Encode(q));
        (s, Ok(Prepared(verb, s.url, rd, s.header, rawQuery)))
  }

  /** `SetParams` then `Execute`: the URL is the base URL followed by the
      template resolved with those params, and with no param that has a
      text, the template itself. */
  lemma ExecuteWithParams(r: Request, params: Entries<Value>, verb: string, path: string, newRequest: (string, string, Option<Bytes>) -> Option<string>)
    requires r.client.Some?
    ensures Execute(SetParams(r, params), verb, path, newRequest).0.url == r.client.value + Resolve(path, params)
    ensures (forall i | 0 <= i < |params| :: PathText(params[i].1) == "") ==>
      Execute(SetParams(r, params), verb, path, newRequest).0.url == r.client.value + path
  {
  }

  /** `SetQuery` then `Execute`: the raw query sent reads back as the
      supported keys of the query in increasing order, each with its text. */
  lemma ExecuteWithQuery(r: Request, query: Entries<Value>, verb: string, path: string, newRequest: (string, string, Option<Bytes>) -> Option<string>)
    ensures Execute(SetQuery(r, query), verb, path, newRequest).1.Ok? ==>
      UrlValues.DecodePairs(Execute(SetQuery(r, query), verb, path, newRequest).1.value.rawQuery.value) == Some(QueryBuild.Listing(query))
  {
    SetQueryEncodes(r, query);
  }

  /** The missing-client test: `(&Request{}).Execute` fails with
      `ClientMissing`. */
  lemma ExecuteWithoutClient(verb: string, path: string, newRequest: (string, string, Option<Bytes>) -> Option<string>)
    ensures Execute(Zero, verb, path, newRequest).1 == Err(ClientMissing)
  {
  }
}

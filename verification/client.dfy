/** `Client.Request` of client.go: the one-call shape of the same pipeline,
    from the caller's options to the `*http.Request` handed to the
    transport. It shares the value switches, the path template, the query
    builder and the header operations with the fluent `Request`. */
module ClientRequest {
  import opened Wrappers
  import opened GoMaps
  import opened ByteStrings
  import opened Scalars
  import opened Text
  import opened Template
  import Multimap
  import HttpHeader
  import QueryBuild
  import UrlValues
  import MediaType
  import FluentRequest

  /** `Client`: the text `baseURL.String()` gives, and `Options.Headers`,
      the headers every request starts from. */
  datatype Client = Client(baseURL: string, defaults: Entries<string>)

  /** `RequestOptions`. A nil `Params`, `Query` or `Body` is `None`; a nil
      `Headers` map ranges like an empty one. */
  datatype RequestOptions<B> = RequestOptions(
    headers: Entries<string>,
    params: Option<Entries<Value>>,
    query: Option<Entries<Value>>,
    body: Option<B>)

  /** The `*http.Request` `Request` hands to the transport. */
  datatype Prepared = Prepared(verb: string, url: string, body: Option<Bytes>, header: HttpHeader.Header)

  /** Why `Request` stops before the transport. */
  datatype Failure = MarshalFailed(reason: string) | NewRequestFailed(reason: string)

  /** `parseParams`: a nil map returns the path as given; otherwise the
      template is resolved as `parsePath` resolves it. */
  function ParseParams(path: string, params: Option<Entries<Value>>): (p: string)
    ensures params.None? ==> p == path
    ensures params.Some? && (forall i | 0 <= i < |params.value| :: PathText(params.value[i].1) == "") ==> p == path
  {
    match params
    case None => path
    case Some(ps) => Resolve(path, ps)
  }

  /** Both shapes of the pipeline resolve a template alike. */
  lemma ParseParamsAgrees(r: FluentRequest.Request, path: string, params: Option<Entries<Value>>)
    ensures ParseParams(path, params) == FluentRequest.ParsePath(r, path, params).path
  {
  }

  /** `parseQuery`: "" for a nil map; otherwise the encoding of a fresh
      `url.Values` holding the supported values, which reads back as the
      supported keys in increasing order, each with its text. It is ""
      exactly when there is nothing to send. */
  function ParseQuery(query: Option<Entries<Value>>): (qs: string)
    ensures query.None? ==> qs == ""
    ensures query.Some? ==> UrlValues.DecodePairs(qs) == Some(QueryBuild.Listing(query.value))
    ensures qs == "" <==> query.None? || QueryBuild.SupportedKeys(query.value) == {}
  {
    match query
    case None => ""
    case Some(q) =>
      BuiltQuery(q);
      UrlValues.Encode(QueryBuild.Build(q))
  }

  /** The encoded query reads back as the listing, and is empty exactly
      when no key is supported. */
  lemma BuiltQuery(q: Entries<Value>)
    ensures UrlValues.DecodePairs(UrlValues.Encode(QueryBuild.Build(q))) == Some(QueryBuild.Listing(q))
    ensures UrlValues.Encode(QueryBuild.Build(q)) == "" <==> QueryBuild.SupportedKeys(q) == {}
  {
    QueryBuild.BuildPairs(q);
    QueryBuild.BuildKeys(q);
    if QueryBuild.SupportedKeys(q) == {} {
      assert QueryBuild.Build(q) == map[];
      UrlValues.EncodeEmpty();
    }
    EmptyEncoding(UrlValues.Encode(QueryBuild.Build(q)), QueryBuild.Listing(q));
  }

  /** Only the empty string decodes to no pairs. */
  lemma EmptyEncoding(qs: string, l: seq<(string, string)>)
    requires UrlValues.DecodePairs(qs) == Some(l)
    ensures qs == "" <==> l == []
  {
    if qs != "" {
      var parts := Split(qs, '&');
      assert UrlValues.DecodeAll(parts) == Some(l);
      assert |parts| > 0;
    }
  }

  /** The query the client sends is the one the fluent request sends. */
  lemma ParseQueryAgrees(r: FluentRequest.Request, query: Entries<Value>)
    ensures ParseQuery(Some(query)) == UrlValues.Encode(FluentRequest.SetQuery(r, query).query.value)
  {
  }

  /** `parseBody`: no body gives no reader and no error; a body that does
      not marshal gives its error; otherwise a reader over the JSON bytes. */
  function ParseBody<B>(body: Option<B>, marshal: B -> Result<Bytes, string>): (r: Result<Option<Bytes>, string>)
    ensures body.None? ==> r == Ok(None)
    ensures body.Some? ==> (r.Err? <==> marshal(body.value).Err?)
    ensures body.Some? && r.Err? ==> r.error == marshal(body.value).error
    ensures body.Some? && r.Ok? ==> r.value == Some(marshal(body.value).value)
  {
    match body
    case None => Ok(None)
    case Some(b) =>
      match marshal(b)
      case Err(e) => Err(e)
      case Ok(data) => Ok(Some(data))
  }

  /** Both shapes send the same bytes for the same body; the client reports
      the marshalling error the fluent request drops. */
  lemma ParseBodyAgrees<B>(r: FluentRequest.Request, body: Option<B>, marshal: B -> Result<Bytes, string>)
    requires r.body == FluentRequest.NoBody
    ensures ParseBody(body, marshal).Ok? ==> FluentRequest.ReaderOf(FluentRequest.SetBody(r, body, marshal).body) == ParseBody(body, marshal).value
    ensures ParseBody(body, marshal).Err? ==> FluentRequest.SetBody(r, body, marshal).body == FluentRequest.NoBody
  {
  }

  /** `buildRequestURL`: the base URL and the path, then `?` and the query
      string only when the query string is not empty. */
  function BuildRequestURL(base: string, path: string, qs: string): (u: string)
    ensures qs == "" ==> u == base + path
    ensures qs != "" ==> u == base + path + "?" + qs
  {
    var u := base + path;
    if qs != "" then u + "?" + qs else u
  }

  /** When the base URL and the path hold no `?`, cutting the URL at its
      first `?` gives back the two parts: the query string is recovered
      exactly, and an empty one adds no `?`. */
  lemma SplitRequestURL(base: string, path: string, qs: string)
    requires Free(base + path, '?')
    ensures Cut(BuildRequestURL(base, path, qs), '?') == (base + path, qs)
    ensures qs == "" <==> Free(BuildRequestURL(base, path, qs), '?')
  {
    var u := BuildRequestURL(base, path, qs);
    if qs != "" {
      assert u == (base + path) + ['?'] + qs;
      CutPiece(base + path, '?', qs);
      assert u[|base + path|] == '?';
    }
  }

  /** `Accept` is already in canonical form. */
  lemma AcceptCanonical()
    ensures HttpHeader.CanonicalKey("Accept") == "Accept"
  {
    var s := "Accept";
    assert HttpHeader.AllToken(s);
    var r := HttpHeader.CanonicalKey(s);
    assert r[0] == 'A' && r[1] == 'c' && r[2] == 'c' && r[3] == 'e' && r[4] == 'p' && r[5] == 't';
  }

  /** `Client.Request` up to the transport call, with `json.Marshal` as
      `marshal` and `http.NewRequest` as `newRequest` (its error, if any).
      A body that does not marshal stops it before `newRequest` is
      consulted. Otherwise the URL is the base URL, the resolved path and
      the query string; the header is the defaults merged with the
      request's headers, except that a body forces `Accept` to
      `application/json` whatever the caller asked for. */
  function Request<B>(c: Client, verb: string, path: string, options: RequestOptions<B>,
                      marshal: B -> Result<Bytes, string>,
                      newRequest: (string, string, Option<Bytes>) -> Option<string>): (r: Result<Prepared, Failure>)
    ensures options.body.Some? && marshal(options.body.value).Err? ==> r == Err(MarshalFailed(marshal(options.body.value).error))
    ensures r.Ok? ==> r.value.verb == verb && r.value.url == BuildRequestURL(c.baseURL, ParseParams(path, options.params), ParseQuery(options.query))
    ensures r.Ok? ==> r.value.body == (if options.body.Some? then Some(marshal(options.body.value).value) else None)
    ensures r.Ok? && options.body.Some? ==> Multimap.ValuesOf(r.value.header, "Accept") == [MediaType.ContentTypeJson]
    ensures r.Ok? && options.body.None? ==> r.value.header == HttpHeader.Merge(c.defaults, options.headers)
    ensures r.Ok? ==> forall k | k != "Accept" :: Multimap.ValuesOf(r.value.header, k) == Multimap.ValuesOf(HttpHeader.Merge(c.defaults, options.headers), k)
    ensures options.body.None? || marshal(options.body.value).Ok? ==>
      var u := BuildRequestURL(c.baseURL, ParseParams(path, options.params), ParseQuery(options.query));
      var body := if options.body.Some? then Some(marshal(options.body.value).value) else None;
      (r.Ok? <==> newRequest(verb, u, body).None?) &&
      (r.Err? ==> r.error == NewRequestFailed(newRequest(verb, u, body).value))
  {
    var ppath := ParseParams(path, options.params);
    var qs := ParseQuery(options.query);
    var headers := HttpHeader.Merge(c.defaults, options.headers);
    match ParseBody(options.body, marshal)
    case Err(e) => Err(MarshalFailed(e))
    case Ok(body) =>
      AcceptCanonical();
      var h := if body.Some? then HttpHeader.Set(headers, "Accept", MediaType.ContentTypeJson) else headers;
      var u := BuildRequestURL(c.baseURL, ppath, qs);
      match newRequest(verb, u, body)
      case Some(e) => Err(NewRequestFailed(e))
      case None => Ok(Prepared(verb, u, body, h))
  }

  /** Whatever `Accept` the defaults or the caller give, a request with a
      body asks for JSON, and `Get` reads it under any spelling of the
      key. */
  lemma BodyForcesAccept<B>(c: Client, verb: string, path: string, options: RequestOptions<B>,
                            marshal: B -> Result<Bytes, string>,
                            newRequest: (string, string, Option<Bytes>) -> Option<string>, spelling: string)
    requires options.body.Some?
    requires HttpHeader.CanonicalKey(spelling) == "Accept"
    ensures Request(c, verb, path, options, marshal, newRequest).Ok? ==>
      HttpHeader.Get(Request(c, verb, path, options, marshal, newRequest).value.header, spelling) == MediaType.ContentTypeJson
  {
  }

  /** Without a body, every header the caller gives reaches the request
      with the caller's value, and defaults fill the rest. */
  lemma HeadersReachRequest<B>(c: Client, verb: string, path: string, options: RequestOptions<B>,
                               marshal: B -> Result<Bytes, string>,
                               newRequest: (string, string, Option<Bytes>) -> Option<string>, key: string)
    requires options.body.None?
    ensures Request(c, verb, path, options, marshal, newRequest).Ok? && HttpHeader.LastFor(options.headers, key).Some? ==>
      Multimap.ValuesOf(Request(c, verb, path, options, marshal, newRequest).value.header, key) == [HttpHeader.LastFor(options.headers, key).value]
    ensures Request(c, verb, path, options, marshal, newRequest).Ok? && HttpHeader.LastFor(options.headers, key).None? && HttpHeader.LastFor(c.defaults, key).Some? ==>
      Multimap.ValuesOf(Request(c, verb, path, options, marshal, newRequest).value.header, key) == [HttpHeader.LastFor(c.defaults, key).value]
  {
    HttpHeader.MergePrecedence(c.defaults, options.headers, key);
  }
}

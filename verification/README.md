# rip request building and response inspection, in Dafny

This project models the pure core of `rip`, a small fluent HTTP client for
Go. It covers the steps that turn a caller's path template, parameters,
query, headers and body into the request the transport receives, and the
accessors on the response the transport returns.

The code holds two shapes of the same pipeline, each modelled as its own
module:

- the fluent `Request` of request.go (`SetQuery`, `SetParams`,
  `SetHeader`, `SetHeaders`, `SetBody`, then `Execute`);
- the one-call `Client.Request` of client.go.

The two modules share one model of everything they have in common: Go's
dynamic values, the path template, the query builder and `http.Header`.

The modules, bottom up:

- `Wrappers`: `Option` and `Result`.
- `Scalars`: the `interface{}` values a caller passes, and the two type
  switches that turn them into text. The `float32`, `int32` and `int64`
  arms are empty, because Go cases do not fall through.
- `Decimal`: `%d` and `%.6f`, each with a parser that reads the rendering
  back.
- `Text`: `strings.Index`, `strings.Replace(…, 1)`, `Join`, `Split`, `Cut`
  and ASCII case mapping.
- `GoMaps`: a Go map as the list of its entries in one iteration order.
  Go leaves that order unspecified. A property is therefore stated for an
  arbitrary order (`Reorder` by any `Permutation`), or it names the order
  it assumes, as `Template.ResolveInOrder` and `Template.ResolveSwap` do.
- `Multimap`: `map[string][]string`, the shape of both `url.Values` and
  `http.Header`.
- `Template`: the placeholder loop shared by `parsePath` and
  `parseParams`.
- `Ordering`: lexicographic order and the sorted key list that
  `url.Values.Encode` writes.
- `QueryEscape` and `UrlValues`: `url.QueryEscape` and `Values.Encode`,
  each with a decoder that reads the output back.
- `QueryBuild`: the loop shared by both `parseQuery` functions.
- `HttpHeader`: canonical header keys (`textproto.CanonicalMIMEHeaderKey`),
  `Get`, `Add` and `Set`, and the `Set` loops of `SetHeaders` and
  `parseHeader`.
- `MediaType`: `IsJSON` and `Unmarshal`.
  - The regular expression is written twice. One form is a declarative
    predicate (`Matches`). The other is an executable scanner (`IsJSON`).
  - They are proved equal.
- `FluentRequest`: request.go.
- `ClientRequest`: client.go.
- `HttpResponse`: response.go.

Collaborators the code calls but does not define are parameters of the
functions that call them:

- `json.Marshal` is `marshal: B -> Result<Bytes, string>`;
- `http.NewRequest` is `newRequest`, which returns its error, if any;
- `json.Unmarshal` is `decode`.

The transport is not modelled. `Execute` and `Client.Request` end by
returning the request they would hand to it (`Prepared`).

## Model

| member | source | states |
|---|---|---|
| Scalars.PathText | request.go:117-131 | The path switch yields text exactly for non-empty strings, `int` and `float64`; the empty `float32`/`int32`/`int64` arms and `default` (reached by `bool`) yield "" |
| Scalars.QueryText | request.go:88-102 | The query switch yields a value exactly for `float64`, `int`, `string` (even empty) and `bool`; `bool` is written `true`/`false` |
| Scalars.PathTextInjective | client.go:156-168 | Two values of the same formatted tag with the same text are the same value |
| Decimal.FormatIntRoundTrip | request.go:94-95 | `%d` is read back as the integer it printed |
| Decimal.FormatFixed6RoundTrip | request.go:90-91 | `%.6f` is read back as the value it printed, to the millionth |
| Decimal.FormatExamples | request.go:122 | `%d` of 1 is "1" and `%.6f` of 1.1 is "1.100000" |
| Text.ReplaceFirst | request.go:134 | `strings.Replace(s, pat, rep, 1)` splices `rep` over the leftmost occurrence only, and returns `s` when there is none |
| Text.LaterOccurrenceKept | request.go:134 | Replacing the first occurrence keeps every later non-overlapping occurrence, shifted by the change in length |
| Text.ReplaceFirstCommutes | request.go:116-135 | Two first-occurrence replacements commute when the first pattern ends before the second starts and the first replacement creates no earlier second pattern |
| Template.Step | request.go:133-135 | A non-empty text replaces the leftmost `":"+key`; an empty text, or a path without the placeholder, leaves the path as it is |
| Template.Resolve | request.go:113-137 | With no parameter that has a text (in particular with none at all) the path comes back unchanged |
| Template.ResolveAppend | request.go:116 | The loop over `a + b` is the loop over `a` continued over `b` |
| Template.ResolveSkips | request.go:129-135 | A parameter with an unsupported tag or an empty string can be dropped without changing the result |
| Template.ResolveOne | request.go:133-135 | One parameter with a text replaces exactly its leftmost placeholder and keeps the rest |
| Template.ResolveKeepsLater | request.go:134 | A later placeholder of the same key is left in the path |
| Template.ResolveSwap | request.go:116 | Two parameters resolve alike in either order when their placeholders are in order and the first text does not create an earlier second placeholder |
| Template.OrderMatters | request.go:116 | A counterexample: ":k:a" with `a`="2" and `k2`="v" resolves to "v" in one iteration order and ":k2" in the other, though no key is a prefix of another and no text holds a placeholder |
| Template.ResolveInOrder | client.go:153-173 | Placeholders laid out in the order the parameters are visited, with colon-free texts, are each filled by their own parameter |
| Template.ResolveAnyOrder | request.go:113-137 | When lead, tails, keys and texts hold no colon and no key is a prefix of another, every iteration order of the map fills each placeholder with its own parameter |
| Template.IntExample | request.go:125-126 | "/test/:test" with `int` 1 resolves to "/test/1" |
| Template.FloatExample | request.go:121-122 | "/test/:test" with `float64` 1.1 resolves to "/test/1.100000" |
| Template.StringExample | request.go:127-128 | "/test/:test" with "test" resolves to "/test/test" |
| Template.MultipleExample | request.go:113-137 | In every one of the six iteration orders, three placeholders of string, `int` and `float64` values are each filled by their own parameter: "/test/teststring/1/1.100000" |
| Template.IdsExample | client.go:146-176 | "/test/:id1/:id2" with `id1`="1" and `id2`="2" resolves to "/test/1/2" in both iteration orders |
| Ordering.SortedSeq | request.go:63 | The keys `Values.Encode` writes are the map's keys, strictly increasing |
| Ordering.SortedUnique | request.go:63 | A set of keys has exactly one strictly increasing listing, so the sort result is determined |
| QueryEscape.UnescapeEscape | request.go:63 | Unescaping undoes `url.QueryEscape` on every string, including non-ASCII ones |
| QueryEscape.EscapeInjective | client.go:143 | Distinct strings are escaped differently |
| QueryEscape.EscapeUnreserved | client.go:143 | Strings of unreserved characters are sent as they are |
| UrlValues.DecodeEncode | request.go:63 | `Values.Encode` reads back as every key/value pair, keys in increasing order |
| UrlValues.EncodeEmpty | client.go:143 | An empty `url.Values` encodes to "" |
| QueryBuild.AddAll | request.go:87-103 | After the loop, each key holds its previous values plus the text of its own supported value, and only such keys are added |
| QueryBuild.Build | request.go:85-104 | A fresh `url.Values` filled by the loop has exactly the keys with a supported value, each holding that value's text |
| QueryBuild.BuildKeys | request.go:88-101 | The keys sent are exactly the keys whose values have a formatted tag |
| QueryBuild.BuildEntry | request.go:87-102 | Each entry's key holds the text of its own value, and is present iff its tag is formatted |
| QueryBuild.BuildPairs | client.go:119-144 | The encoded query decodes to the supported keys in increasing order, each with its text |
| QueryBuild.FlattenInKeyOrder | client.go:124-143 | A fully supported query is sent one pair per entry, in key order |
| QueryBuild.EncodeMixedQuery | request.go:85-104 | A string, an `int`, a `float64` and a `bool` encode to "test1=test1&test2=1&test3=1.100000&test4=true" |
| HttpHeader.CanonicalKey | request.go:145 | A key made of token characters gets an upper-case letter at its start and after each `-`, and lower-case letters elsewhere; any other key is kept verbatim |
| HttpHeader.CanonicalKeyCanonical | request.go:157 | A token key's canonical form is canonical, and a canonical key is its own canonical form |
| HttpHeader.CanonicalKeyCaseless | request.go:157 | Token keys share a canonical form exactly when they differ only in ASCII case |
| HttpHeader.NonTokenVerbatim | request.go:145 | A key with a non-token character is kept verbatim and shares its canonical form with no other key: not with another spelling, not with a token key |
| HttpHeader.Get | request.go:188 | `Get` reads the first value under the canonical key, or "" |
| HttpHeader.Add | request.go:145 | `Add` appends to the canonical key's list and changes no other key |
| HttpHeader.Set | request.go:190 | `Set` replaces the canonical key's list by one value and changes no other key |
| HttpHeader.GetSet | request.go:188-190 | What `Set` stores is what `Get` reads under any spelling with the same canonical form |
| HttpHeader.SetSet | request.go:157 | A second `Set` of a key overwrites the first |
| HttpHeader.LastForNone | client.go:112-114 | No entry is stored under a canonical key exactly when the last-entry search finds nothing |
| HttpHeader.SetAll | request.go:156-158 | After the `Set` loop, each canonical key named by an entry holds the value of the last such entry; other keys keep their values |
| HttpHeader.MergePrecedence | client.go:105-117 | A key in the overwrites holds exactly the overwrite value; another default key keeps its default; no other key appears |
| HttpHeader.MergeExample | client.go:112-114 | A request's `x-api-key` beats the default `X-API-KEY` |
| MediaType.IsJSONMatches | util.go:12-18 | On every string, the scanner agrees with the declarative reading of the pattern: `application/` or `text/` in any case, then `json`, a line-free subtype ending in `+json`, or `json-` and a line-free rest, then `;` or the end of the text |
| MediaType.JsonSubtype | util.go:12 | `application/json` and `text/json`, followed by nothing or by `;` and anything, are JSON |
| MediaType.SuffixSubtype | util.go:12 | Any line-free `+json` subtype is JSON |
| MediaType.DashSubtype | util.go:12 | Any line-free `json-…` subtype is JSON |
| MediaType.MatchAnywhere | util.go:17 | The match is not anchored at the start: a JSON type after any prefix is still JSON |
| MediaType.CaseInsensitive | util.go:12 | Strings equal up to ASCII case are both JSON or both not |
| MediaType.MatchHasJson | util.go:12 | Every match contains the word `json`, in some case, at some index |
| MediaType.TextIsNotJson | util.go:9 | "text/plain; charset=utf-8" is not JSON |
| MediaType.JsonIsJson | util.go:10 | "application/json", with or without a charset, is JSON |
| MediaType.Unmarshal | util.go:21-30 | A non-JSON media type leaves the destination untouched and reports no error; a JSON one hands the body to the decoder |
| FluentRequest.SetQuery | request.go:79-104 | The query is rebuilt from scratch: exactly the supported keys, each with one text; no other field changes |
| FluentRequest.SetQueryEncodes | request.go:85-104 | The query `SetQuery` stores encodes to the supported keys in increasing order, each with its text |
| FluentRequest.ParsePath | request.go:113-137 | Without params, or with none that has a text, the path is stored as given; nothing else changes |
| FluentRequest.SetHeader | request.go:140-148 | A nil header is created; the value is appended to the canonical key's list; nothing else changes |
| FluentRequest.SetHeaders | request.go:151-161 | A nil header is created; each canonical key named holds the last value given for it; other keys and fields are unchanged |
| FluentRequest.SetHeadersEntry | request.go:156-158 | An entry no later entry overrides is read back by `Get` under any spelling of its key |
| FluentRequest.AppendVersusOverwrite | request.go:140-161 | On a key that holds values, `SetHeader` leaves at least two and `SetHeaders` leaves exactly one |
| FluentRequest.SingleHeaderExample | request.go:140-148 | `SetHeader("test", "test")` on an empty request gives `{"Test": ["test"]}` |
| FluentRequest.TwoHeadersExample | request.go:140-148 | Two `SetHeader` calls give `{"Test1": ["test"], "Test2": ["test"]}` |
| FluentRequest.SetHeadersExample | request.go:151-161 | `SetHeaders` of `test1` and `test2` gives `{"Test1": ["test"], "Test2": ["test"]}` |
| FluentRequest.SetBody | request.go:164-194 | A nil body changes nothing; a marshal failure leaves a nil body and the header alone; otherwise the body is a reader over the JSON bytes, an existing JSON Content-Type is kept, and any other becomes `application/json` with no other key touched |
| FluentRequest.SetBodyAsWritten | request.go:176-191 | As written, `SetBody` panics exactly when the body marshals and the header is nil; otherwise it agrees with `SetBody` |
| FluentRequest.SetBodyPanicsOnZero | request.go:188-190 | `(&Request{}).SetBody(v)` panics for every `v` that marshals |
| FluentRequest.SetBodyExample | request.go:164-173 | A request with an empty header and a body that marshals gets a body and the Content-Type `application/json` |
| FluentRequest.Execute | request.go:40-64 | Without a client: `ClientMissing` and the request untouched. Otherwise: the path is the template resolved with the params (as given when there are none), URL = base + that path; `http.NewRequest`'s error is returned exactly when there is one, with its reason; the prepared request carries the request's header, the body only if it is a reader, and the encoded query only if there is one |
| FluentRequest.ExecuteWithParams | request.go:47-48 | After `SetParams`, the URL is the base followed by the template resolved with those params |
| FluentRequest.ExecuteWithQuery | request.go:62-64 | After `SetQuery`, the raw query sent reads back as the supported keys in order, each with its text |
| FluentRequest.ExecuteWithoutClient | request.go:41-43 | `(&Request{}).Execute` fails with `ClientMissing` |
| ClientRequest.ParseParams | client.go:146-176 | A nil map, or params without text, give the path as given |
| ClientRequest.ParseParamsAgrees | client.go:146-176 | `parseParams` resolves a template as `parsePath` does |
| ClientRequest.ParseQuery | client.go:119-144 | "" for a nil map; otherwise the encoding reads back as the supported keys in order, and is "" exactly when no key is supported |
| ClientRequest.ParseQueryAgrees | client.go:119-144 | The client's query string is the one the fluent request sends |
| ClientRequest.ParseBody | client.go:92-103 | No body gives no reader and no error; a failed marshal gives its error; otherwise a reader over the JSON bytes |
| ClientRequest.ParseBodyAgrees | client.go:92-103 | Both shapes send the same bytes for a body; where the client reports a marshal error, the fluent request leaves the body nil |
| ClientRequest.BuildRequestURL | client.go:83-90 | base + path, then `?` and the query string only when it is non-empty |
| ClientRequest.SplitRequestURL | client.go:83-90 | When base and path hold no `?`, cutting the URL at its first `?` recovers both parts, and an empty query adds no `?` |
| ClientRequest.Request | client.go:53-73 | A marshal failure is returned before `http.NewRequest` is consulted; otherwise the request is built exactly when `http.NewRequest` reports no error, and its error is returned as given; the URL combines base, resolved path and query; a body forces `Accept` to `application/json`; every other key is the merged defaults and overwrites |
| ClientRequest.BodyForcesAccept | client.go:63-65 | With a body, `Get` reads `application/json` for `Accept` under any spelling, whatever the caller asked for |
| ClientRequest.HeadersReachRequest | client.go:56 | Without a body, the caller's headers reach the request with the caller's values, and defaults fill the rest |
| HttpResponse.Status | response.go:17-23 | "" without a raw response, else its status |
| HttpResponse.StatusCode | response.go:26-32 | 0 without a raw response, else its code |
| HttpResponse.Header | response.go:35-40 | An empty header without a raw response, else its header |
| HttpResponse.Body | response.go:51-57 | An empty slice for no body, else the stored bytes unchanged |
| HttpResponse.String | response.go:43-48 | The body with white space cut from both ends, and nothing more: the result is tight and is an infix of the body |
| HttpResponse.StringOfBody | response.go:43-48 | `String` is the trimming of `Body`, and trimming it again changes nothing |
| HttpResponse.StringOfTightBody | response.go:43-48 | A body without surrounding white space comes back whole |
| ByteStrings.TrimSpace | response.go:47 | The result is the body with leading and trailing white space removed, and neither end of it is white space |
| ByteStrings.TrimSpaceIdempotent | response.go:47 | Trimming twice is trimming once |
| HttpResponse.StatusClasses | response.go:67-75 | Success is exactly status class 2xx, and error exactly the classes from 4xx on (section 15 of RFC 9110) |
| HttpResponse.SuccessErrorExclusive | response.go:67-75 | No response is both a success and an error; the empty response and 1xx/3xx codes are neither |
| HttpResponse.StatusIgnoresBody | response.go:17-40 | The status accessors read the raw response only |

## Left out

- The transport is not modelled: `r.client.execute`, `httpClient.Do`, and
  the response it builds (request.go:66-75, client.go:75-80). `Execute` and
  `Client.Request` stop at the `*http.Request` they would hand over.
- The `Close` closure (request.go:70-73) and `RawBody` (response.go:60-65)
  are not modelled. They are stream plumbing, and the model keeps no
  streams.
- `NewClient` (client.go:43-50) is not modelled, because `url.Parse` is
  library code. A client is its base URL as `baseURL.String()` renders it.
- `json.Marshal`, `json.Unmarshal` and `http.NewRequest` are not modelled;
  they are parameters.
- Request.Result and rawRequest are not kept. `Result` is never read, and
  `rawRequest` is returned as `Prepared`.
- Decimal.FormatFixed6: a `float64` is kept only as much as `%.6f` shows:
  its sign, its magnitude rounded to millionths, and the non-finite
  values. Rounding a binary float to six decimals is not modelled.
- ByteStrings.TrimSpace: trims ASCII white space only. `strings.TrimSpace`
  also trims Unicode spaces, which the model leaves out because it keeps
  the body as bytes.
- HttpResponse.String: trims ASCII white space only, as it is
  `ByteStrings.TrimSpace` of the body; a body ending in a Unicode space
  such as U+00A0 keeps it in the model.
- Go strings are byte strings, and the model's strings are sequences of
  Unicode scalar values. Header keys, paths, query values and
  Content-Type values holding invalid UTF-8 cannot be written down.
  `url.QueryEscape` would escape such bytes one by one, and RE2 would read
  them as U+FFFD.
- Scalars.Value: Go's `int` is bounded to 64 bits. Other dynamic types
  (maps, slices, structs) are one tag, because every switch treats them
  alike.
- MediaType.IsJSON: the character class `.` is taken to exclude only
  `\n`, as in Go's RE2 without the `s` flag. Case folding covers ASCII
  letters and the one non-ASCII fold that reaches the pattern (`ſ` for
  `s`); the Kelvin sign cannot occur, since the pattern has no `k`.

Where the design description of this client and the code disagree, the
model follows the code:

- Parameter iteration order can change a resolved path, even for
  distinct placeholder names (`Template.OrderMatters`).
- A byte-like body is not passed through. Both `parseBody` functions
  always `json.Marshal` it (request.go:181, client.go:97).
- In request.go a marshal failure is dropped silently. The body becomes
  nil and no error is returned (request.go:181-184). Only client.go
  reports it.
- `Response.Header()` returns the whole header (response.go:35-40). It is
  not a lookup by name.
- `Body()` and `String()` read stored bytes and can be called any number
  of times. There is no consumed/closed state machine.
- `float32`, `int32` and `int64` values are never formatted (empty
  `case` arms). So "integers" in the design means only Go's `int`.
- request_test.go calls `Execute(ctx, method, path)`, but request.go
  declares `Execute(method, path)`. The model follows request.go.
- client.go:80 stores an `*http.Request` in the `Request` field of
  `Response`, which response.go declares as `*Request`. That response
  belongs to the transport and is not modelled.

## Findings

| source | as written | input that shows it | evidently intended | confidence | as-written member | corrected member |
|---|---|---|---|---|---|---|
| request.go:188-190 | `parseBody` calls `r.Header.Set` when the current Content-Type is not JSON, without creating a nil header first, unlike `SetHeader` and `SetHeaders` (request.go:141-143, 152-154) | `(&Request{}).SetBody(v)` for any `v` that marshals: a nil header reads "" as Content-Type, "" is not JSON, and `Set` writes to the nil map, which panics | a nil header is created before `Set`, so the request ends with `Content-Type: application/json` | high; not executed | FluentRequest.SetBodyAsWritten, FluentRequest.SetBodyPanicsOnZero | FluentRequest.SetBody |

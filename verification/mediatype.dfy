/** The media-type test of `util.go`: `IsJSON` matches the regular
    expression `(?i:(application|text)/(json|.*\+json|json\-.*)(;|$))`
    anywhere in a `Content-Type` value. It recognises `application/json`
    (section 11 of RFC 8259), `text/json`, the `+json` structured syntax
    suffix (section 3.1 of RFC 6839) and `json-` subtypes. */
module MediaType {
  import opened Wrappers
  import opened Text
  import opened ByteStrings

  const ContentTypeText: string := "text/plain; charset=utf-8"
  const ContentTypeJson: string := "application/json"

  /** `c` matches the pattern character `l` (a lower-case letter or a
      punctuation mark) under `(?i)`. Go folds case by Unicode simple
      folding, which for the letters of this pattern adds only U+017F
      (long s) to the orbit of `s`. */
  predicate FoldEq(c: char, l: char) {
    AsciiLower(c) == l || (l == 's' && c == 'ſ')
  }

  /** The pattern word `w` occurs at `i` of `s` under `(?i)`. */
  predicate WordAt(s: string, i: nat, w: string) {
    i + |w| <= |s| && forall j | 0 <= j < |w| :: FoldEq(s[i + j], w[j])
  }

  /** `(;|$)` at index `e`: a semicolon there, or the end of the text. */
  predicate EndsAt(s: string, e: nat) {
    e == |s| || (e < |s| && s[e] == ';')
  }

  /** `.*` can span `s[a..b]`: `.` matches anything but a line feed. */
  predicate LineFree(s: string, a: nat, b: nat) {
    forall j | a <= j < b && j < |s| :: s[j] != '\n'
  }

  /** `(application|text)/` at `i`, with the subtype starting at `p`. */
  predicate TypeAt(s: string, i: nat, p: nat) {
    (WordAt(s, i, "application/") && p == i + 12) || (WordAt(s, i, "text/") && p == i + 5)
  }

  /** One of the three subtype alternatives spans `s[p..e]`. */
  predicate SubtypeSpan(s: string, p: nat, e: nat) {
    (e == p + 4 && WordAt(s, p, "json"))
    || (p + 5 <= e <= |s| && LineFree(s, p, e - 5) && s[e - 5] == '+' && WordAt(s, e - 4, "json"))
    || (p + 5 <= e && WordAt(s, p, "json-") && LineFree(s, p + 5, e))
  }

  /** The pattern matches `s[i..e]`. */
  predicate MatchSpan(s: string, i: nat, p: nat, e: nat) {
    i <= p <= e <= |s| && TypeAt(s, i, p) && SubtypeSpan(s, p, e) && EndsAt(s, e)
  }

  /** The pattern matches a substring starting at `i`. */
  predicate MatchAt(s: string, i: nat) {
    exists p, e | i <= p <= e <= |s| :: MatchSpan(s, i, p, e)
  }

  /** The pattern matches somewhere in `s`: what `MatchString` answers. */
  predicate Matches(s: string) {
    exists i | 0 <= i <= |s| :: MatchAt(s, i)
  }

  /** Scans `.*(;|$)` from `q`. */
  function TailFrom(s: string, q: nat): bool
    decreases |s| - q
  {
    q >= |s| || s[q] == ';' || (s[q] != '\n' && TailFrom(s, q + 1))
  }

  /** Scans `.*\+json(;|$)` from `q`. */
  function PlusFrom(s: string, q: nat): bool
    decreases |s| - q
  {
    q < |s| && s[q] != '\n'
    && ((s[q] == '+' && WordAt(s, q + 1, "json") && EndsAt(s, q + 5)) || PlusFrom(s, q + 1))
  }

  /** Some subtype alternative followed by `(;|$)` starts at `p`. */
  function SubtypeFrom(s: string, p: nat): bool {
    (WordAt(s, p, "json") && EndsAt(s, p + 4))
    || PlusFrom(s, p)
    || (WordAt(s, p, "json-") && TailFrom(s, p + 5))
  }

  /** The pattern matches from `i`. */
  function MatchHere(s: string, i: nat): bool {
    (WordAt(s, i, "application/") && SubtypeFrom(s, i + 12)) || (WordAt(s, i, "text/") && SubtypeFrom(s, i + 5))
  }

  /** The pattern matches from `i` or some later start. */
  function ScanFrom(s: string, i: nat): bool
    decreases |s| + 1 - i
  {
    i <= |s| && (MatchHere(s, i) || ScanFrom(s, i + 1))
  }

  /** `IsJSON`: the regular expression finds a match in `ct`. */
  function IsJSON(ct: string): bool {
    ScanFrom(ct, 0)
  }

  lemma {:induction false} TailFromSpec(s: string, q: nat)
    requires q <= |s|
    ensures TailFrom(s, q) <==> exists e | q <= e <= |s| :: LineFree(s, q, e) && EndsAt(s, e)
    decreases |s| - q
  {
    if q < |s| && s[q] != ';' {
      if s[q] == '\n' {
        forall e | q <= e <= |s| && EndsAt(s, e) ensures !LineFree(s, q, e) {
          assert e != q;
        }
      } else {
        TailFromSpec(s, q + 1);
        if e :| q + 1 <= e <= |s| && LineFree(s, q + 1, e) && EndsAt(s, e) {
          assert LineFree(s, q, e);
        }
        if e :| q <= e <= |s| && LineFree(s, q, e) && EndsAt(s, e) {
          assert e != q;
          assert LineFree(s, q + 1, e);
        }
      }
    } else {
      assert LineFree(s, q, q) && EndsAt(s, q);
    }
  }

  /** `s[e - 5..e]` is `+json` followed by `(;|$)`, after a line-free run
      from `q`. */
  predicate PlusEnd(s: string, q: nat, e: nat) {
    q + 5 <= e <= |s| && LineFree(s, q, e - 5) && s[e - 5] == '+' && WordAt(s, e - 4, "json") && EndsAt(s, e)
  }

  lemma {:induction false} PlusFromSpec(s: string, q: nat)
    requires q <= |s|
    ensures PlusFrom(s, q) <==> exists e :: PlusEnd(s, q, e)
    decreases |s| - q
  {
    if q < |s| && s[q] != '\n' {
      var next := q + 1;
      PlusFromSpec(s, next);
      if s[q] == '+' && WordAt(s, q + 1, "json") && EndsAt(s, q + 5) {
        assert PlusEnd(s, q, q + 5);
      } else {
        if e :| PlusEnd(s, next, e) {
          assert PlusEnd(s, q, e);
        }
        if e :| PlusEnd(s, q, e) {
          assert e != q + 5;
          assert PlusEnd(s, next, e);
        }
      }
    } else if q < |s| {
      forall e | q + 5 <= e <= |s| && LineFree(s, q, e - 5) ensures !PlusEnd(s, q, e) {
        assert e - 5 == q;
      }
    }
  }

  lemma SubtypeFromSpec(s: string, p: nat)
    requires p <= |s|
    ensures SubtypeFrom(s, p) <==> exists e | p <= e <= |s| :: SubtypeSpan(s, p, e) && EndsAt(s, e)
  {
    PlusFromSpec(s, p);
    if p + 5 <= |s| {
      TailFromSpec(s, p + 5);
    }
    if SubtypeFrom(s, p) {
      if WordAt(s, p, "json") && EndsAt(s, p + 4) {
        assert SubtypeSpan(s, p, p + 4);
      } else if PlusFrom(s, p) {
        var e :| PlusEnd(s, p, e);
        assert SubtypeSpan(s, p, e);
      } else {
        var e :| p + 5 <= e <= |s| && LineFree(s, p + 5, e) && EndsAt(s, e);
        assert SubtypeSpan(s, p, e);
      }
    }
    if e :| p <= e <= |s| && SubtypeSpan(s, p, e) && EndsAt(s, e) {
      if e == p + 4 && WordAt(s, p, "json") {
      } else if p + 5 <= e && LineFree(s, p, e - 5) && s[e - 5] == '+' && WordAt(s, e - 4, "json") {
        assert PlusEnd(s, p, e);
      } else {
        assert WordAt(s, p, "json-") && p + 5 <= e && LineFree(s, p + 5, e);
      }
    }
  }

  lemma MatchAfterType(s: string, i: nat, p: nat)
    requires TypeAt(s, i, p) && p <= |s| && SubtypeFrom(s, p)
    ensures MatchAt(s, i)
  {
    SubtypeFromSpec(s, p);
    var e :| p <= e <= |s| && SubtypeSpan(s, p, e) && EndsAt(s, e);
    assert MatchSpan(s, i, p, e);
  }

  lemma SubtypeBack(s: string, i: nat, p: nat, e: nat)
    requires MatchSpan(s, i, p, e)
    ensures MatchHere(s, i)
  {
    SubtypeFromSpec(s, p);
    assert SubtypeFrom(s, p);
    if p == i + 12 {
      assert WordAt(s, i, "application/");
    } else {
      assert WordAt(s, i, "text/");
    }
  }

  lemma MatchHereSpec(s: string, i: nat)
    ensures MatchHere(s, i) <==> MatchAt(s, i)
  {
    if MatchHere(s, i) {
      if WordAt(s, i, "application/") && SubtypeFrom(s, i + 12) {
        MatchAfterType(s, i, i + 12);
      } else {
        MatchAfterType(s, i, i + 5);
      }
    }
    if MatchAt(s, i) {
      var p, e :| i <= p <= e <= |s| && MatchSpan(s, i, p, e);
      SubtypeBack(s, i, p, e);
    }
  }

  lemma {:induction false} ScanFromSpec(s: string, i: nat)
    requires i <= |s| + 1
    ensures ScanFrom(s, i) <==> exists j | i <= j <= |s| :: MatchAt(s, j)
    decreases |s| + 1 - i
  {
    if i <= |s| {
      var next := i + 1;
      MatchHereSpec(s, i);
      ScanFromSpec(s, next);
      assert ScanFrom(s, i) == (MatchHere(s, i) || ScanFrom(s, next));
      if MatchHere(s, i) {
        assert MatchAt(s, i);
      } else if ScanFrom(s, next) {
        var j :| next <= j <= |s| && MatchAt(s, j);
        assert i <= j;
      }
      if j :| i <= j <= |s| && MatchAt(s, j) {
        if j == i {
          assert MatchHere(s, i);
        } else {
          assert next <= j;
        }
      }
    }
  }

  /** The scanning `IsJSON` answers exactly whether the pattern matches. */
  lemma IsJSONMatches(s: string)
    ensures IsJSON(s) <==> Matches(s)
  {
    ScanFromSpec(s, 0);
  }

  /** The two top-level types the pattern names, with their slash. */
  function TypeWord(app: bool): string {
    if app then "application/" else "text/"
  }

  /** Parameters that may follow a matched subtype: none, or a list that
      starts with `;`. */
  predicate ParamsTail(params: string) {
    params == "" || params[0] == ';'
  }

  /** Lower-case pattern text matches itself. */
  lemma WordIn(pre: string, w: string, rest: string)
    requires forall j | 0 <= j < |w| :: AsciiLower(w[j]) == w[j]
    ensures WordAt(pre + w + rest, |pre|, w)
  {
    var s := pre + w + rest;
    forall j | 0 <= j < |w| ensures FoldEq(s[|pre| + j], w[j]) {
      assert s[|pre| + j] == w[j];
    }
  }

  lemma TypeIn(app: bool, rest: string)
    ensures TypeAt(TypeWord(app) + rest, 0, |TypeWord(app)|)
  {
    var t := TypeWord(app);
    assert forall j | 0 <= j < |t| :: AsciiLower(t[j]) == t[j];
    WordIn("", t, rest);
    assert "" + t + rest == t + rest;
  }

  lemma EndsAtTail(body: string, params: string)
    requires ParamsTail(params)
    ensures EndsAt(body + params, |body|)
  {
    if params != "" {
      assert (body + params)[|body|] == params[0];
    }
  }

  /** Any match found makes `IsJSON` true. */
  lemma SpanMatches(s: string, i: nat, p: nat, e: nat)
    requires MatchSpan(s, i, p, e)
    ensures IsJSON(s)
  {
    assert MatchAt(s, i);
    IsJSONMatches(s);
  }

  lemma LineFreeIn(pre: string, mid: string, post: string)
    requires LineFree(mid, 0, |mid|)
    ensures LineFree(pre + mid + post, |pre|, |pre| + |mid|)
  {
    var s := pre + mid + post;
    forall j | |pre| <= j < |pre| + |mid| ensures s[j] != '\n' {
      assert s[j] == mid[j - |pre|];
    }
  }

  /** `application/json` and `text/json`, with or without parameters. */
  lemma JsonSubtype(app: bool, params: string)
    requires ParamsTail(params)
    ensures IsJSON(TypeWord(app) + "json" + params)
  {
    var s := TypeWord(app) + "json" + params;
    var p := |TypeWord(app)|;
    TypeIn(app, "json" + params);
    assert s == TypeWord(app) + ("json" + params);
    WordIn(TypeWord(app), "json", params);
    EndsAtTail(TypeWord(app) + "json", params);
    SpanMatches(s, 0, p, p + 4);
  }

  /** Any line-free subtype ending in the `+json` suffix. */
  lemma SuffixSubtype(app: bool, sub: string, params: string)
    requires LineFree(sub, 0, |sub|) && ParamsTail(params)
    ensures IsJSON(TypeWord(app) + sub + "+json" + params)
  {
    var s := TypeWord(app) + sub + "+json" + params;
    var p := |TypeWord(app)|;
    SuffixSpan(app, sub, params, s);
    SpanMatches(s, 0, p, p + |sub| + 5);
  }

  lemma SuffixSpan(app: bool, sub: string, params: string, s: string)
    requires LineFree(sub, 0, |sub|) && ParamsTail(params)
    requires s == TypeWord(app) + sub + "+json" + params
    ensures MatchSpan(s, 0, |TypeWord(app)|, |TypeWord(app)| + |sub| + 5)
  {
    var head := TypeWord(app);
    var tail := "+json" + params;
    assert s == head + (sub + tail);
    TypeIn(app, sub + tail);
    assert s == head + sub + tail;
    LineFreeIn(head, sub, tail);
    SuffixTail(head + sub, params, s);
  }

  /** `+json` and the parameters after a prefix `front`. */
  lemma SuffixTail(front: string, params: string, s: string)
    requires ParamsTail(params) && s == front + "+json" + params
    ensures s[|front|] == '+' && WordAt(s, |front| + 1, "json") && EndsAt(s, |front| + 5)
  {
    assert s == front + "+" + "json" + params;
    WordIn(front + "+", "json", params);
    EndsAtTail(front + "+json", params);
  }

  /** Any line-free subtype that starts with `json-`. */
  lemma DashSubtype(app: bool, rest: string)
    requires LineFree(rest, 0, |rest|)
    ensures IsJSON(TypeWord(app) + "json-" + rest)
  {
    var head := TypeWord(app);
    var s := head + "json-" + rest;
    TypeIn(app, "json-" + rest);
    assert s == TypeWord(app) + ("json-" + rest);
    WordIn(head, "json-", rest);
    LineFreeIn(head + "json-", rest, "");
    assert s == head + "json-" + rest + "";
    SpanMatches(s, 0, |head|, |s|);
  }

  /** The match is not anchored: text in front of a JSON media type does
      not hide it. */
  lemma MatchAnywhere(pre: string, s: string)
    requires IsJSON(s)
    ensures IsJSON(pre + s)
  {
    IsJSONMatches(s);
    var i :| 0 <= i <= |s| && MatchAt(s, i);
    ShiftMatch(pre, s, i);
  }

  lemma ShiftMatch(pre: string, s: string, i: nat)
    requires MatchAt(s, i)
    ensures IsJSON(pre + s)
  {
    var p, e :| i <= p <= e <= |s| && MatchSpan(s, i, p, e);
    ShiftSpan(pre, s, i, p, e);
    SpanMatches(pre + s, |pre| + i, |pre| + p, |pre| + e);
  }

  lemma ShiftWord(pre: string, s: string, i: nat, w: string)
    requires WordAt(s, i, w)
    ensures WordAt(pre + s, |pre| + i, w)
  {
    var t := pre + s;
    forall j | 0 <= j < |w| ensures FoldEq(t[|pre| + i + j], w[j]) {
      assert t[|pre| + i + j] == s[i + j];
    }
  }

  lemma ShiftLineFree(pre: string, s: string, a: nat, b: nat)
    requires b <= |s| && LineFree(s, a, b)
    ensures LineFree(pre + s, |pre| + a, |pre| + b)
  {
    var t := pre + s;
    forall j | |pre| + a <= j < |pre| + b ensures t[j] != '\n' {
      assert t[j] == s[j - |pre|];
    }
  }

  lemma ShiftSpan(pre: string, s: string, i: nat, p: nat, e: nat)
    requires MatchSpan(s, i, p, e)
    ensures MatchSpan(pre + s, |pre| + i, |pre| + p, |pre| + e)
  {
    var k := |pre|;
    if p == i + 12 {
      ShiftWord(pre, s, i, "application/");
    } else {
      ShiftWord(pre, s, i, "text/");
    }
    if e == p + 4 && WordAt(s, p, "json") {
      ShiftWord(pre, s, p, "json");
    } else if p + 5 <= e && WordAt(s, p, "json-") && LineFree(s, p + 5, e) {
      ShiftWord(pre, s, p, "json-");
      ShiftLineFree(pre, s, p + 5, e);
    } else {
      ShiftWord(pre, s, e - 4, "json");
      ShiftLineFree(pre, s, p, e - 5);
      assert (pre + s)[k + e - 5] == s[e - 5];
    }
    if e < |s| {
      assert (pre + s)[k + e] == s[e];
    }
  }

  /** Two texts that agree up to ASCII case. */
  predicate SameUpToCase(s: string, t: string) {
    |s| == |t| && forall k | 0 <= k < |s| :: AsciiLower(s[k]) == AsciiLower(t[k])
  }

  lemma CaseChar(c: char, d: char, l: char)
    requires AsciiLower(c) == AsciiLower(d)
    ensures FoldEq(c, l) ==> FoldEq(d, l)
    ensures c == '\n' <==> d == '\n'
    ensures c == ';' <==> d == ';'
    ensures c == '+' <==> d == '+'
  {
  }

  lemma CaseWord(s: string, t: string, i: nat, w: string)
    requires SameUpToCase(s, t) && WordAt(s, i, w)
    ensures WordAt(t, i, w)
  {
    forall j | 0 <= j < |w| ensures FoldEq(t[i + j], w[j]) {
      CaseChar(s[i + j], t[i + j], w[j]);
    }
  }

  lemma CaseLineFree(s: string, t: string, a: nat, b: nat)
    requires SameUpToCase(s, t) && LineFree(s, a, b)
    ensures LineFree(t, a, b)
  {
    forall j | a <= j < b && j < |t| ensures t[j] != '\n' {
      CaseChar(s[j], t[j], 'x');
    }
  }

  lemma CaseSpan(s: string, t: string, i: nat, p: nat, e: nat)
    requires SameUpToCase(s, t) && MatchSpan(s, i, p, e)
    ensures MatchSpan(t, i, p, e)
  {
    if p == i + 12 {
      CaseWord(s, t, i, "application/");
    } else {
      CaseWord(s, t, i, "text/");
    }
    if e == p + 4 && WordAt(s, p, "json") {
      CaseWord(s, t, p, "json");
    } else if p + 5 <= e && WordAt(s, p, "json-") && LineFree(s, p + 5, e) {
      CaseWord(s, t, p, "json-");
      CaseLineFree(s, t, p + 5, e);
    } else {
      CaseWord(s, t, e - 4, "json");
      CaseLineFree(s, t, p, e - 5);
      CaseChar(s[e - 5], t[e - 5], 'x');
    }
    if e < |s| {
      CaseChar(s[e], t[e], 'x');
    }
  }

  lemma CaseMatch(s: string, t: string)
    requires SameUpToCase(s, t) && IsJSON(s)
    ensures IsJSON(t)
  {
    IsJSONMatches(s);
    var i :| 0 <= i <= |s| && MatchAt(s, i);
    var p, e :| i <= p <= e <= |s| && MatchSpan(s, i, p, e);
    CaseSpan(s, t, i, p, e);
    SpanMatches(t, i, p, e);
  }

  /** `(?i)`: the answer does not depend on ASCII case. */
  lemma CaseInsensitive(s: string, t: string)
    requires LowerAscii(s) == LowerAscii(t)
    ensures IsJSON(s) <==> IsJSON(t)
  {
    assert |s| == |LowerAscii(s)| == |t|;
    forall k | 0 <= k < |s| ensures AsciiLower(s[k]) == AsciiLower(t[k]) {
      assert LowerAscii(s)[k] == LowerAscii(t)[k];
    }
    if IsJSON(s) {
      CaseMatch(s, t);
    }
    if IsJSON(t) {
      CaseMatch(t, s);
    }
  }

  /** Every match contains the word `json`, in any case. */
  lemma MatchHasJson(s: string)
    requires Matches(s)
    ensures exists k | 0 <= k <= |s| :: WordAt(s, k, "json")
    ensures exists k | 0 <= k < |s| :: FoldEq(s[k], 'j')
  {
    var i :| 0 <= i <= |s| && MatchAt(s, i);
    var p, e :| i <= p <= e <= |s| && MatchSpan(s, i, p, e);
    var k := p;
    if WordAt(s, p, "json") {
    } else if WordAt(s, p, "json-") {
      assert forall j | 0 <= j < 4 :: "json"[j] == "json-"[j];
    } else {
      k := e - 4;
    }
    assert WordAt(s, k, "json");
    assert FoldEq(s[k + 0], "json"[0]);
  }

  /** A value with no `j` in any case is never JSON. */
  lemma NoJNotJson(s: string)
    requires forall k | 0 <= k < |s| :: !FoldEq(s[k], 'j')
    ensures !IsJSON(s)
  {
    IsJSONMatches(s);
    if Matches(s) {
      MatchHasJson(s);
    }
  }

  /** The plain-text type the client's tests use is not JSON. */
  lemma TextIsNotJson()
    ensures !IsJSON(ContentTypeText)
  {
    forall k | 0 <= k < |ContentTypeText| ensures !FoldEq(ContentTypeText[k], 'j') {
    }
    NoJNotJson(ContentTypeText);
  }

  /** The type the client sets is JSON, as is the same type with a
      charset. */
  lemma JsonIsJson()
    ensures IsJSON(ContentTypeJson)
    ensures IsJSON("application/json; charset=utf-8")
  {
    JsonSubtype(true, "");
    JsonSubtype(true, "; charset=utf-8");
    JsonLiterals();
  }

  lemma JsonLiterals()
    ensures TypeWord(true) + "json" + "" == ContentTypeJson
    ensures TypeWord(true) + "json" + "; charset=utf-8" == "application/json; charset=utf-8"
  {
  }

  /** `Unmarshal`: a JSON media type hands the body to the decoder (Go's
      `json.Unmarshal`, a parameter here) and reports its error; any other
      media type leaves the destination as it was and reports no error. */
  function Unmarshal<T>(ct: string, body: Bytes, dest: T, decode: (Bytes, T) -> (T, Option<string>)): (r: (T, Option<string>))
    ensures !IsJSON(ct) ==> r == (dest, None)
    ensures IsJSON(ct) ==> r == decode(body, dest)
  {
    if IsJSON(ct) then decode(body, dest) else (dest, None)
  }
}

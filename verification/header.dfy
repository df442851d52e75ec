/** `http.Header`: a multimap whose keys are stored in canonical form, so
    that field names compare case-insensitively (section 5.1 of RFC 9110). */
module HttpHeader {
  import opened Wrappers
  import opened Text
  import Multimap

  type Header = Multimap.Values

  /** The `tchar` characters of section 5.6.2 of RFC 9110, the only ones Go
      accepts in a field name it canonicalises. */
  predicate IsTokenChar(c: char) {
    ('a' <= c <= 'z') || ('A' <= c <= 'Z') || ('0' <= c <= '9')
    || c == '!' || c == '#' || c == '$' || c == '%' || c == '&' || c == '\'' || c == '*'
    || c == '+' || c == '-' || c == '.' || c == '^' || c == '_' || c == '`' || c == '|' || c == '~'
  }

  predicate AllToken(s: string) {
    forall i | 0 <= i < |s| :: IsTokenChar(s[i])
  }

  /** Whether the character at `i` starts a word: the first one, or one
      right after a `-`. */
  predicate WordStart(s: string, i: nat)
    requires i < |s|
  {
    i == 0 || s[i - 1] == '-'
  }

  /** `textproto.CanonicalMIMEHeaderKey`: a key made of token characters
      gets an upper-case letter at the start of each word and lower case
      elsewhere; any other key is used as it is. */
  function CanonicalKey(s: string): (r: string)
    ensures |r| == |s|
    ensures !AllToken(s) ==> r == s
    ensures AllToken(s) ==> forall i | 0 <= i < |s| ::
      r[i] == (if WordStart(s, i) then AsciiUpper(s[i]) else AsciiLower(s[i]))
  {
    if AllToken(s) then
      seq(|s|, i requires 0 <= i < |s| => if WordStart(s, i) then AsciiUpper(s[i]) else AsciiLower(s[i]))
    else s
  }

  /** A key in the form `CanonicalKey` produces. */
  predicate IsCanonical(s: string) {
    AllToken(s) && forall i | 0 <= i < |s| ::
      if WordStart(s, i) then !('a' <= s[i] <= 'z') else !('A' <= s[i] <= 'Z')
  }

  lemma CaseKeepsToken(c: char)
    ensures IsTokenChar(AsciiUpper(c)) <==> IsTokenChar(c)
    ensures IsTokenChar(AsciiLower(c)) <==> IsTokenChar(c)
    ensures AsciiUpper(AsciiLower(c)) == AsciiUpper(c) && AsciiLower(AsciiUpper(c)) == AsciiLower(c)
    ensures (AsciiUpper(c) == '-' <==> c == '-') && (AsciiLower(c) == '-' <==> c == '-')
  {
  }

  /** A token key comes out canonical, and a canonical key is left alone:
      canonicalising twice is canonicalising once. */
  lemma CanonicalKeyCanonical(s: string)
    ensures AllToken(s) ==> IsCanonical(CanonicalKey(s))
    ensures IsCanonical(s) ==> CanonicalKey(s) == s
  {
    var r := CanonicalKey(s);
    if AllToken(s) {
      forall i | 0 <= i < |s| ensures IsTokenChar(r[i]) && (WordStart(r, i) <==> WordStart(s, i)) {
        CaseKeepsToken(s[i]);
        if i > 0 {
          CaseKeepsToken(s[i - 1]);
        }
      }
    }
  }

  lemma CanonicalKeyIdempotent(s: string)
    ensures CanonicalKey(CanonicalKey(s)) == CanonicalKey(s)
  {
    CanonicalKeyCanonical(s);
    CanonicalKeyCanonical(CanonicalKey(s));
  }

  /** Token keys that differ only in ASCII case share one canonical form,
      and keys with the same canonical form differ only in case. */
  lemma CanonicalKeyCaseless(s: string, t: string)
    requires AllToken(s) && AllToken(t)
    ensures CanonicalKey(s) == CanonicalKey(t) <==> LowerAscii(s) == LowerAscii(t)
  {
    var (cs, ct) := (CanonicalKey(s), CanonicalKey(t));
    if LowerAscii(s) == LowerAscii(t) {
      forall i | 0 <= i < |s| ensures cs[i] == ct[i] {
        assert AsciiLower(s[i]) == AsciiLower(t[i]);
        CaseKeepsToken(s[i]);
        CaseKeepsToken(t[i]);
        if i > 0 {
          assert AsciiLower(s[i - 1]) == AsciiLower(t[i - 1]);
          CaseKeepsToken(s[i - 1]);
          CaseKeepsToken(t[i - 1]);
        }
      }
    }
    if cs == ct {
      forall i | 0 <= i < |s| ensures AsciiLower(s[i]) == AsciiLower(t[i]) {
        assert cs[i] == ct[i];
        CaseKeepsToken(s[i]);
        CaseKeepsToken(t[i]);
      }
    }
  }

  /** A key that is not made of token characters is kept verbatim, so it
      is case-sensitive: it shares its canonical form with itself only,
      never with another spelling and never with a token key. */
  lemma NonTokenVerbatim(s: string, t: string)
    requires !AllToken(s)
    ensures CanonicalKey(s) == s
    ensures CanonicalKey(s) == CanonicalKey(t) <==> s == t
  {
    if AllToken(t) {
      CanonicalKeyCanonical(t);
    }
  }

  /** `Header.Get`: the first value under the canonical key, or "". */
  function Get(h: Header, key: string): (v: string)
    ensures Multimap.ValuesOf(h, CanonicalKey(key)) == [] ==> v == ""
    ensures Multimap.ValuesOf(h, CanonicalKey(key)) != [] ==> v == Multimap.ValuesOf(h, CanonicalKey(key))[0]
  {
    var vs := Multimap.ValuesOf(h, CanonicalKey(key));
    if |vs| == 0 then "" else vs[0]
  }

  /** `Header.Add`: appends to the list of the canonical key. */
  function Add(h: Header, key: string, value: string): (r: Header)
    ensures r.Keys == h.Keys + {CanonicalKey(key)}
    ensures Multimap.ValuesOf(r, CanonicalKey(key)) == Multimap.ValuesOf(h, CanonicalKey(key)) + [value]
    ensures forall k | k != CanonicalKey(key) :: Multimap.ValuesOf(r, k) == Multimap.ValuesOf(h, k)
  {
    Multimap.Add(h, CanonicalKey(key), value)
  }

  /** `Header.Set`: replaces the list of the canonical key by one value. */
  function Set(h: Header, key: string, value: string): (r: Header)
    ensures r.Keys == h.Keys + {CanonicalKey(key)}
    ensures Multimap.ValuesOf(r, CanonicalKey(key)) == [value]
    ensures forall k | k != CanonicalKey(key) :: Multimap.ValuesOf(r, k) == Multimap.ValuesOf(h, k)
  {
    h[CanonicalKey(key) := [value]]
  }

  /** What `Set` stores is what `Get` reads, under any spelling of the key
      with the same canonical form. */
  lemma GetSet(h: Header, key: string, value: string, other: string)
    ensures CanonicalKey(other) == CanonicalKey(key) ==> Get(Set(h, key, value), other) == value
    ensures CanonicalKey(other) != CanonicalKey(key) ==> Get(Set(h, key, value), other) == Get(h, other)
  {
  }

  /** `Add` only changes what `Get` reads when the key held nothing. */
  lemma GetAdd(h: Header, key: string, value: string)
    ensures Get(Add(h, key, value), key) == if Get(h, key) == "" && Multimap.ValuesOf(h, CanonicalKey(key)) == [] then value else Get(h, key)
  {
  }

  /** A second `Set` of the same key overwrites the first. */
  lemma SetSet(h: Header, key: string, v: string, w: string)
    ensures Set(Set(h, key, v), key, w) == Set(h, key, w)
  {
  }

  /** Whether entry `e` is stored under the canonical key `c`. */
  predicate Names(e: (string, string), c: string) {
    CanonicalKey(e.0) == c
  }

  /** The value of the last entry of `es` stored under `c`, if any. */
  function LastFor(es: seq<(string, string)>, c: string): Option<string> {
    if |es| == 0 then None
    else if Names(es[|es| - 1], c) then Some(es[|es| - 1].1)
    else LastFor(es[..|es| - 1], c)
  }

  /** `LastFor` finds nothing exactly when no entry is stored under `c`. */
  lemma {:induction false} LastForNone(es: seq<(string, string)>, c: string)
    ensures LastFor(es, c).None? <==> forall i | 0 <= i < |es| :: !Names(es[i], c)
  {
    if |es| > 0 && !Names(es[|es| - 1], c) {
      var init := es[..|es| - 1];
      LastForNone(init, c);
      if forall i | 0 <= i < |init| :: !Names(init[i], c) {
        forall i | 0 <= i < |es| ensures !Names(es[i], c) {
          if i < |init| {
            assert es[i] == init[i];
          }
        }
      } else {
        var i :| 0 <= i < |init| && Names(init[i], c);
        assert es[i] == init[i];
      }
    }
  }

  /** An entry no later entry shares a canonical key with is the one
      `LastFor` finds. */
  lemma {:induction false} LastForEntry(es: seq<(string, string)>, i: nat)
    requires i < |es|
    requires forall j | i < j < |es| :: !Names(es[j], CanonicalKey(es[i].0))
    ensures LastFor(es, CanonicalKey(es[i].0)) == Some(es[i].1)
  {
    if i < |es| - 1 {
      var init := es[..|es| - 1];
      assert init[i] == es[i];
      LastForEntry(init, i);
    }
  }

  /** The canonical forms of the keys of `es`. */
  function KeysOf(es: seq<(string, string)>): set<string> {
    set i | 0 <= i < |es| :: CanonicalKey(es[i].0)
  }

  /** `Set` of every entry in iteration order (the loops of `SetHeaders`
      and `parseHeader`). Go map keys are distinct, but two of them may
      share a canonical form; then the later entry wins. */
  function SetAll(h: Header, es: seq<(string, string)>): (r: Header)
    ensures r.Keys == h.Keys + KeysOf(es)
    ensures forall c :: Multimap.ValuesOf(r, c) == match LastFor(es, c) case Some(v) => [v] case None => Multimap.ValuesOf(h, c)
    decreases |es|
  {
    if |es| == 0 then h
    else
      var init := es[..|es| - 1];
      var (k, v) := es[|es| - 1];
      var r := Set(SetAll(h, init), k, v);
      assert KeysOf(es) == KeysOf(init) + {CanonicalKey(k)} by {
        forall c | c in KeysOf(es) ensures c in KeysOf(init) + {CanonicalKey(k)} {
          var i :| 0 <= i < |es| && c == CanonicalKey(es[i].0);
          if i < |es| - 1 {
            assert es[i] == init[i];
          }
        }
      }
      r
  }

  /** `parseHeader`: the client's default headers, then the request's
      headers over them. */
  function Merge(defaults: seq<(string, string)>, overwrites: seq<(string, string)>): (h: Header)
    ensures h.Keys == KeysOf(defaults) + KeysOf(overwrites)
  {
    SetAll(SetAll(map[], defaults), overwrites)
  }

  /** A key the request sets holds exactly the request's value, never the
      default; any other default passes through; nothing else appears. */
  lemma MergePrecedence(defaults: seq<(string, string)>, overwrites: seq<(string, string)>, c: string)
    ensures LastFor(overwrites, c).Some? ==> Multimap.ValuesOf(Merge(defaults, overwrites), c) == [LastFor(overwrites, c).value]
    ensures LastFor(overwrites, c).None? && LastFor(defaults, c).Some? ==> Multimap.ValuesOf(Merge(defaults, overwrites), c) == [LastFor(defaults, c).value]
    ensures LastFor(overwrites, c).None? && LastFor(defaults, c).None? ==> c !in Merge(defaults, overwrites)
  {
    LastForNone(defaults, c);
    LastForNone(overwrites, c);
  }

  /** The example of the client's tests: a request's `x-api-key` beats the
      default `X-API-KEY`. */
  lemma MergeExample()
    ensures Get(Merge([("x-api-key", "default")], [("Accept", "application/json"), ("x-api-key", "should-overwrite-default")]), "X-API-KEY")
         == "should-overwrite-default"
  {
    var o := [("Accept", "application/json"), ("x-api-key", "should-overwrite-default")];
    ApiKeyForms();
    assert LastFor(o, "X-Api-Key") == Some("should-overwrite-default");
  }

  /** Canonical forms of the keys the tests use. */
  lemma ApiKeyForms()
    ensures CanonicalKey("x-api-key") == "X-Api-Key"
    ensures CanonicalKey("X-API-KEY") == "X-Api-Key"
  {
    LowerApiKey();
    UpperApiKey();
  }

  lemma LowerApiKey()
    ensures CanonicalKey("x-api-key") == "X-Api-Key"
  {
    var s := "x-api-key";
    assert AllToken(s);
    var r := CanonicalKey(s);
    assert r[0] == 'X' && r[1] == '-' && r[2] == 'A' && r[3] == 'p' && r[4] == 'i';
    assert r[5] == '-' && r[6] == 'K' && r[7] == 'e' && r[8] == 'y';
    IsApiKey(r);
  }

  lemma UpperApiKey()
    ensures CanonicalKey("X-API-KEY") == "X-Api-Key"
  {
    var s := "X-API-KEY";
    assert AllToken(s);
    var r := CanonicalKey(s);
    assert r[0] == 'X' && r[1] == '-' && r[2] == 'A' && r[3] == 'p' && r[4] == 'i';
    assert r[5] == '-' && r[6] == 'K' && r[7] == 'e' && r[8] == 'y';
    IsApiKey(r);
  }

  lemma IsApiKey(r: string)
    requires |r| == 9
    requires r[0] == 'X' && r[1] == '-' && r[2] == 'A' && r[3] == 'p' && r[4] == 'i'
    requires r[5] == '-' && r[6] == 'K' && r[7] == 'e' && r[8] == 'y'
    ensures r == "X-Api-Key"
  {
  }

  lemma TestKeyForms()
    ensures CanonicalKey("test") == "Test"
    ensures CanonicalKey("content-type") == "Content-Type"
  {
    TestKey();
    ContentTypeKey();
  }

  lemma TestKey()
    ensures CanonicalKey("test") == "Test"
  {
    var s := "test";
    assert AllToken(s);
    var r := CanonicalKey(s);
    assert r[0] == 'T' && r[1] == 'e' && r[2] == 's' && r[3] == 't';
  }

  lemma ContentTypeKey()
    ensures CanonicalKey("content-type") == "Content-Type"
  {
    var s := "content-type";
    assert AllToken(s);
    var r := CanonicalKey(s);
    assert r[0] == 'C' && r[1] == 'o' && r[2] == 'n' && r[3] == 't' && r[4] == 'e' && r[5] == 'n';
    assert r[6] == 't' && r[7] == '-' && r[8] == 'T' && r[9] == 'y' && r[10] == 'p' && r[11] == 'e';
    IsContentType(r);
  }

  lemma IsContentType(r: string)
    requires |r| == 12
    requires r[0] == 'C' && r[1] == 'o' && r[2] == 'n' && r[3] == 't' && r[4] == 'e' && r[5] == 'n'
    requires r[6] == 't' && r[7] == '-' && r[8] == 'T' && r[9] == 'y' && r[10] == 'p' && r[11] == 'e'
    ensures r == "Content-Type"
  {
  }
}

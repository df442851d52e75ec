/** `url.Values`, the multimap a query string is built in (its `Add` is
    `Multimap.Add`), and its `Encode`: keys in sorted order, each value as an
    escaped `key=value` pair, pairs joined with `&` (the
    `application/x-www-form-urlencoded` form of the URL Living Standard).
    `DecodePairs` reads such a string back. */
module UrlValues {
  import opened Wrappers
  import opened Text
  import opened Ordering
  import opened QueryEscape
  import opened Multimap

  /** The pairs of `keys[0]`, then those of `keys[1]`, and so on, each key's
      values in their stored order. */
  function PairsOf(keys: seq<string>, v: Values): seq<(string, string)> {
    if |keys| == 0 then []
    else
      var k := keys[0];
      seq(|ValuesOf(v, k)|, i requires 0 <= i < |ValuesOf(v, k)| => (k, ValuesOf(v, k)[i])) + PairsOf(keys[1..], v)
  }

  /** Every `(key, value)` pair of `v`, keys in increasing order: the pairs
      `Encode` writes, in the order it writes them. */
  function Flatten(v: Values): seq<(string, string)> {
    PairsOf(SortedSeq(v.Keys), v)
  }

  /** One pair as `Encode` writes it. */
  function EncodePair(p: (string, string)): string {
    Escape(p.0) + "=" + Escape(p.1)
  }

  function EncodeAll(ps: seq<(string, string)>): (es: seq<string>)
    ensures |es| == |ps|
    ensures forall i | 0 <= i < |ps| :: es[i] == EncodePair(ps[i])
  {
    seq(|ps|, i requires 0 <= i < |ps| => EncodePair(ps[i]))
  }

  /** `Values.Encode`. */
  function Encode(v: Values): string {
    Join('&', EncodeAll(Flatten(v)))
  }

  /** Reads one `key=value` piece; `None` without `=` or with a malformed
      escape. */
  function DecodePair(piece: string): Option<(string, string)> {
    if Free(piece, '=') then None
    else
      var (k, x) := Cut(piece, '=');
      match (Unescape(k), Unescape(x))
      case (Some(k'), Some(x')) => Some((k', x'))
      case _ => None
  }

  function DecodeAll(pieces: seq<string>): Option<seq<(string, string)>> {
    if |pieces| == 0 then Some([])
    else
      match (DecodePair(pieces[0]), DecodeAll(pieces[1..]))
      case (Some(p), Some(ps)) => Some([p] + ps)
      case _ => None
  }

  /** Reads an encoded query back into its list of pairs. */
  function DecodePairs(s: string): Option<seq<(string, string)>> {
    if s == "" then Some([]) else DecodeAll(Split(s, '&'))
  }

  /** An escaped string holds neither `&` nor `=`. */
  lemma EscapedFree(s: string)
    ensures Free(Escape(s), '&') && Free(Escape(s), '=')
  {
    var e := Escape(s);
    forall i | 0 <= i < |e| ensures e[i] != '&' && e[i] != '=' {
      assert EscapedChar(e[i]);
    }
  }

  lemma DecodeEncodePair(p: (string, string))
    ensures Free(EncodePair(p), '&')
    ensures DecodePair(EncodePair(p)) == Some(p)
  {
    EscapedFree(p.0);
    EscapedFree(p.1);
    var e := EncodePair(p);
    assert e == Escape(p.0) + ['='] + Escape(p.1);
    FreeConcat(Escape(p.0), '=', Escape(p.1), '&');
    assert !Free(e, '=') by {
      assert e[|Escape(p.0)|] == '=';
    }
    CutPiece(Escape(p.0), '=', Escape(p.1));
    UnescapeEscape(p.0);
    UnescapeEscape(p.1);
  }

  lemma {:induction false} DecodeEncodeAll(ps: seq<(string, string)>)
    ensures DecodeAll(EncodeAll(ps)) == Some(ps)
  {
    if |ps| > 0 {
      DecodeEncodePair(ps[0]);
      assert EncodeAll(ps)[1..] == EncodeAll(ps[1..]);
      DecodeEncodeAll(ps[1..]);
      assert [ps[0]] + ps[1..] == ps;
    }
  }

  /** A query string `Encode` writes is read back as exactly the pairs of
      `v`, in sorted key order. */
  lemma DecodeEncode(v: Values)
    ensures DecodePairs(Encode(v)) == Some(Flatten(v))
  {
    var ps := Flatten(v);
    var es := EncodeAll(ps);
    DecodeEncodeAll(ps);
    if |ps| > 0 {
      forall k | 0 <= k < |es| ensures Free(es[k], '&') {
        DecodeEncodePair(ps[k]);
      }
      SplitJoin(es, '&');
      assert es[0] == Escape(ps[0].0) + "=" + Escape(ps[0].1);
      assert |es[0]| > 0;
      JoinNonEmpty(es);
    }
  }

  lemma JoinNonEmpty(parts: seq<string>)
    requires |parts| > 0 && |parts[0]| > 0
    ensures Join('&', parts) != ""
  {
    if |parts| > 1 {
      assert |Join('&', parts)| >= |parts[0]|;
    }
  }

  /** Keys with no values leave nothing to write: an empty `url.Values`
      encodes to "". */
  lemma EncodeEmpty()
    ensures Encode(map[]) == ""
  {
    assert SortedSeq({}) == [];
  }

  /** When every key holds exactly one value, the pairs are the keys in
      increasing order, each with its value. */
  lemma {:induction false} PairsOfSingles(keys: seq<string>, v: Values)
    requires forall j | 0 <= j < |keys| :: |ValuesOf(v, keys[j])| == 1
    ensures |PairsOf(keys, v)| == |keys|
    ensures forall j | 0 <= j < |keys| :: PairsOf(keys, v)[j] == (keys[j], ValuesOf(v, keys[j])[0])
  {
    if |keys| > 0 {
      PairsOfSingles(keys[1..], v);
      var ps := PairsOf(keys, v);
      var rest := PairsOf(keys[1..], v);
      assert ps == [(keys[0], ValuesOf(v, keys[0])[0])] + rest;
    }
  }

  /** When the keys of `v` are exactly the strictly increasing `ks`, each
      with one value, the pairs follow `ks`. */
  lemma FlattenSorted(v: Values, ks: seq<string>)
    requires StrictlySorted(ks)
    requires forall k :: k in v <==> k in ks
    requires forall j | 0 <= j < |ks| :: |ValuesOf(v, ks[j])| == 1
    ensures |Flatten(v)| == |ks|
    ensures forall j | 0 <= j < |ks| :: Flatten(v)[j] == (ks[j], ValuesOf(v, ks[j])[0])
  {
    SortedUnique(SortedSeq(v.Keys), ks);
    PairsOfSingles(ks, v);
  }

  /** A pair of unreserved strings is written as it is. */
  lemma PlainPair(k: string, x: string)
    requires forall i | 0 <= i < |k| :: Unreserved(k[i])
    requires forall i | 0 <= i < |x| :: Unreserved(x[i])
    ensures EncodePair((k, x)) == k + "=" + x
  {
    EscapeUnreserved(k);
    EscapeUnreserved(x);
  }

  lemma EncodeAll4(p0: (string, string), p1: (string, string), p2: (string, string), p3: (string, string))
    ensures EncodeAll([p0, p1, p2, p3]) == [EncodePair(p0), EncodePair(p1), EncodePair(p2), EncodePair(p3)]
  {
  }
}

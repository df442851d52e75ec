/** Go byte strings and the white-space trimming `strings.TrimSpace` applies
    to a response body. */
module ByteStrings {

  type Byte = b: int | 0 <= b < 0x100

  type Bytes = seq<Byte>

  /** The ASCII white space `strings.TrimSpace` removes: tab, line feed,
      vertical tab, form feed, carriage return and space. */
  predicate IsSpace(b: Byte) {
    b == 0x09 || b == 0x0A || b == 0x0B || b == 0x0C || b == 0x0D || b == 0x20
  }

  predicate AllSpace(s: Bytes) {
    forall i | 0 <= i < |s| :: IsSpace(s[i])
  }

  /** `t` is `s` with some white space cut from each end. */
  predicate TrimmedFrom(s: Bytes, t: Bytes) {
    exists i | 0 <= i <= |s| - |t| :: s[i..i + |t|] == t && AllSpace(s[..i]) && AllSpace(s[i + |t|..])
  }

  /** Neither end of `t` is white space. */
  predicate Tight(t: Bytes) {
    |t| > 0 ==> !IsSpace(t[0]) && !IsSpace(t[|t| - 1])
  }

  /** Number of leading white-space bytes. */
  function LeadingSpace(s: Bytes): (n: nat)
    ensures n <= |s| && AllSpace(s[..n])
    ensures n < |s| ==> !IsSpace(s[n])
  {
    if |s| == 0 || !IsSpace(s[0]) then 0
    else
      var n := 1 + LeadingSpace(s[1..]);
      assert s[..n] == [s[0]] + s[1..][..n - 1];
      n
  }

  /** Number of trailing white-space bytes. */
  function TrailingSpace(s: Bytes): (n: nat)
    ensures n <= |s| && AllSpace(s[|s| - n..])
    ensures n < |s| ==> !IsSpace(s[|s| - n - 1])
  {
    if |s| == 0 || !IsSpace(s[|s| - 1]) then 0
    else
      var init := s[..|s| - 1];
      var n := 1 + TrailingSpace(init);
      assert s[|s| - n..] == init[|init| - (n - 1)..] + [s[|s| - 1]];
      n
  }

  /** `strings.TrimSpace` on ASCII white space: the longest infix of `s`
      that neither starts nor ends with white space. */
  function TrimSpace(s: Bytes): (t: Bytes)
    ensures TrimmedFrom(s, t)
    ensures Tight(t)
  {
    var i := LeadingSpace(s);
    var rest := s[i..];
    var n := TrailingSpace(rest);
    var t := rest[..|rest| - n];
    assert s[i..i + |t|] == t;
    assert s[i + |t|..] == rest[|rest| - n..];
    assert |t| > 0 ==> t[0] == s[i] && t[|t| - 1] == rest[|rest| - n - 1];
    t
  }

  /** A tight string is its own trimming. */
  lemma TrimTight(t: Bytes)
    requires Tight(t)
    ensures TrimSpace(t) == t
  {
    assert LeadingSpace(t) == 0;
    assert t[0..] == t;
    assert TrailingSpace(t) == 0;
  }

  /** Trimming twice trims no more than trimming once. */
  lemma TrimSpaceIdempotent(s: Bytes)
    ensures TrimSpace(TrimSpace(s)) == TrimSpace(s)
  {
    TrimTight(TrimSpace(s));
  }
}

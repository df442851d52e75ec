/** String searching, first-occurrence replacement, splitting and joining, as
    the Go `strings` functions the client calls behave on them. */
module Text {
  import opened Wrappers

  /** `pat` occurs in `s` starting at index `i`. */
  predicate OccursAt(s: string, pat: string, i: nat) {
    i + |pat| <= |s| && s[i..i + |pat|] == pat
  }

  /** `pat` occurs nowhere in `s`. */
  predicate Absent(s: string, pat: string) {
    forall i: nat | i <= |s| :: !OccursAt(s, pat, i)
  }

  /** `pat` does not start at any index below `bound`. */
  predicate NoneBefore(s: string, pat: string, bound: nat) {
    forall i: nat | i < bound :: !OccursAt(s, pat, i)
  }

  /** `i` is the leftmost occurrence of `pat` in `s`. */
  predicate FirstAt(s: string, pat: string, i: nat) {
    OccursAt(s, pat, i) && NoneBefore(s, pat, i)
  }

  /** A string has at most one leftmost occurrence of a pattern. */
  lemma FirstAtUnique(s: string, pat: string, i: nat, j: nat)
    requires FirstAt(s, pat, i) && FirstAt(s, pat, j)
    ensures i == j
  {
  }

  /** The search of `strings.Index`, resumed at `from`. */
  function IndexFrom(s: string, pat: string, from: nat): (r: Option<nat>)
    requires NoneBefore(s, pat, from)
    ensures r.Some? ==> FirstAt(s, pat, r.value)
    ensures r.None? ==> Absent(s, pat)
    decreases |s| + 1 - from
  {
    if from + |pat| > |s| then None
    else if s[from..from + |pat|] == pat then Some(from)
    else IndexFrom(s, pat, from + 1)
  }

  /** `strings.Index`: the leftmost occurrence of `pat` in `s`, if any. */
  function Index(s: string, pat: string): (r: Option<nat>)
    ensures r.Some? ==> FirstAt(s, pat, r.value)
    ensures r.None? ==> Absent(s, pat)
  {
    IndexFrom(s, pat, 0)
  }

  /** `strings.Replace(s, pat, rep, 1)`: only the leftmost occurrence of `pat`
      is replaced; without one, `s` comes back unchanged. */
  function ReplaceFirst(s: string, pat: string, rep: string): (r: string)
    ensures Absent(s, pat) ==> r == s
    ensures forall i: nat | FirstAt(s, pat, i) :: r == s[..i] + rep + s[i + |pat|..]
  {
    match Index(s, pat)
    case None => s
    case Some(i) =>
      assert forall j: nat | FirstAt(s, pat, j) :: j == i by {
        forall j: nat | FirstAt(s, pat, j) ensures j == i {
          FirstAtUnique(s, pat, i, j);
        }
      }
      s[..i] + rep + s[i + |pat|..]
  }

  /** A splice at `i` keeps every occurrence that starts at or after the end
      `i + n` of the cut, shifted by the change in length. */
  lemma SpliceKeeps(s: string, i: nat, n: nat, rep: string, pat: string, j: nat)
    requires i + n <= j && OccursAt(s, pat, j)
    ensures OccursAt(s[..i] + rep + s[i + n..], pat, j - n + |rep|)
  {
    var tail := s[i + n..];
    var r := s[..i] + rep + tail;
    var d := j - (i + n);
    assert tail[d..d + |pat|] == s[j..j + |pat|];
    assert r[|s[..i] + rep| + d..|s[..i] + rep| + d + |pat|] == tail[d..d + |pat|];
  }

  /** Replacing the first occurrence keeps every later, non-overlapping
      occurrence, shifted by the change in length. */
  lemma LaterOccurrenceKept(s: string, pat: string, rep: string, i: nat, j: nat)
    requires FirstAt(s, pat, i) && OccursAt(s, pat, j) && i + |pat| <= j
    ensures OccursAt(ReplaceFirst(s, pat, rep), pat, j - |pat| + |rep|)
  {
    ReplaceAt(s, pat, rep, i);
    SpliceKeeps(s, i, |pat|, rep, pat, j);
  }

  /** Everything before the replaced occurrence is untouched, so no occurrence
      of `pat` that starts and ends before `bound` is created or lost. */
  lemma PrefixKept(s: string, t: string, pat: string, bound: nat)
    requires bound <= |s| && bound <= |t| && s[..bound] == t[..bound]
    ensures forall k: nat | k + |pat| <= bound :: OccursAt(s, pat, k) == OccursAt(t, pat, k)
  {
    forall k: nat | k + |pat| <= bound
      ensures OccursAt(s, pat, k) == OccursAt(t, pat, k)
    {
      assert s[k..k + |pat|] == s[..bound][k..k + |pat|];
      assert t[k..k + |pat|] == t[..bound][k..k + |pat|];
    }
  }

  /** The splice `ReplaceFirst` performs at a known first occurrence. */
  lemma ReplaceAt(s: string, pat: string, rep: string, i: nat)
    requires FirstAt(s, pat, i)
    ensures ReplaceFirst(s, pat, rep) == s[..i] + rep + s[i + |pat|..]
  {
  }

  /** A second splice, at `k` in the spliced string `sa`, behind a first
      one at `i`: the two replacements end up side by side. */
  lemma {:induction false} SpliceThenSplice(s: string, i: nat, n: nat, x: string, j: nat, m: nat, y: string,
                                            sa: string, k: nat, r: string)
    requires i + n <= j && j + m <= |s|
    requires sa == s[..i] + x + s[i + n..] && k == j - n + |x|
    requires r == sa[..k] + y + sa[k + m..]
    ensures r == s[..i] + x + s[i + n..j] + y + s[j + m..]
  {
    assert s[i + n..] == s[i + n..j] + s[j..];
    assert sa[..k] == s[..i] + x + s[i + n..j];
    assert s[j..][m..] == s[j + m..];
    assert sa[k + m..] == s[j + m..];
  }

  /** A first splice, at `i`, in front of a second one at `j`: the same two
      replacements side by side. */
  lemma {:induction false} SpliceBeforeSplice(s: string, i: nat, n: nat, x: string, j: nat, m: nat, y: string,
                                              sb: string, r: string)
    requires i + n <= j && j + m <= |s|
    requires sb == s[..j] + y + s[j + m..]
    requires r == sb[..i] + x + sb[i + n..]
    ensures r == s[..i] + x + s[i + n..j] + y + s[j + m..]
  {
    assert s[..j][..i] == s[..i];
    assert sb[..i] == s[..i];
    assert s[..j][i + n..] == s[i + n..j];
    assert sb[i + n..] == s[i + n..j] + y + s[j + m..];
  }

  /** An occurrence behind a splice, with none before it, is the first. */
  lemma {:induction false} FirstAfterSplice(s: string, i: nat, n: nat, x: string, b: string, j: nat, sa: string, k: nat)
    requires i + n <= j && OccursAt(s, b, j)
    requires sa == s[..i] + x + s[i + n..] && k == j - n + |x|
    requires NoneBefore(sa, b, k)
    ensures FirstAt(sa, b, k)
  {
    SpliceKeeps(s, i, n, x, b, j);
  }

  /** Replacing `a` (first at `i`) first, then `b` (first at `j`, after `a`),
      yields the two replacements spliced into place. */
  lemma {:induction false} ReplaceAThenB(s: string, a: string, x: string, b: string, y: string, i: nat, j: nat)
    requires FirstAt(s, a, i) && FirstAt(s, b, j) && i + |a| <= j
    requires NoneBefore(ReplaceFirst(s, a, x), b, j - |a| + |x|)
    ensures ReplaceFirst(ReplaceFirst(s, a, x), b, y) == s[..i] + x + s[i + |a|..j] + y + s[j + |b|..]
  {
    ReplaceAt(s, a, x, i);
    SecondReplace(s, a, x, b, y, i, j, ReplaceFirst(s, a, x), j - |a| + |x|);
  }

  /** The second replacement of `ReplaceAThenB`, on the spliced string `sa`. */
  lemma {:induction false} SecondReplace(s: string, a: string, x: string, b: string, y: string, i: nat, j: nat,
                                         sa: string, k: nat)
    requires FirstAt(s, b, j) && i + |a| <= j
    requires sa == s[..i] + x + s[i + |a|..] && k == j - |a| + |x|
    requires NoneBefore(sa, b, k)
    ensures ReplaceFirst(sa, b, y) == s[..i] + x + s[i + |a|..j] + y + s[j + |b|..]
  {
    FirstAfterSplice(s, i, |a|, x, b, j, sa, k);
    ReplaceBehind(s, a, x, b, y, i, j, sa, k);
  }

  /** `ReplaceFirst` at the first occurrence `k` of `b` in `sa`. */
  lemma {:induction false} ReplaceBehind(s: string, a: string, x: string, b: string, y: string, i: nat, j: nat,
                                         sa: string, k: nat)
    requires i + |a| <= j && j + |b| <= |s|
    requires sa == s[..i] + x + s[i + |a|..] && k == j - |a| + |x|
    requires FirstAt(sa, b, k)
    ensures ReplaceFirst(sa, b, y) == s[..i] + x + s[i + |a|..j] + y + s[j + |b|..]
  {
    ReplaceAt(sa, b, y, k);
    SpliceThenSplice(s, i, |a|, x, j, |b|, y, sa, k, ReplaceFirst(sa, b, y));
  }

  /** A splice at `j` keeps a first occurrence that ends at or before `j`. */
  lemma {:induction false} FirstKeptBeforeSplice(s: string, pat: string, i: nat, j: nat, m: nat, y: string, t: string)
    requires FirstAt(s, pat, i) && i + |pat| <= j && j + m <= |s|
    requires t == s[..j] + y + s[j + m..]
    ensures FirstAt(t, pat, i)
  {
    assert t[..j] == s[..j];
    PrefixKept(s, t, pat, j);
  }

  /** Replacing `b` first leaves the earlier first occurrence of `a` in place,
      so replacing `a` afterwards yields the same splice. */
  lemma {:induction false} ReplaceBThenA(s: string, a: string, x: string, b: string, y: string, i: nat, j: nat)
    requires FirstAt(s, a, i) && FirstAt(s, b, j) && i + |a| <= j
    ensures ReplaceFirst(ReplaceFirst(s, b, y), a, x) == s[..i] + x + s[i + |a|..j] + y + s[j + |b|..]
  {
    ReplaceAt(s, b, y, j);
    ReplaceInFront(s, a, x, b, y, i, j, ReplaceFirst(s, b, y));
  }

  /** The second replacement of `ReplaceBThenA`, on the spliced string `sb`. */
  lemma {:induction false} ReplaceInFront(s: string, a: string, x: string, b: string, y: string, i: nat, j: nat, sb: string)
    requires FirstAt(s, a, i) && i + |a| <= j && j + |b| <= |s|
    requires sb == s[..j] + y + s[j + |b|..]
    ensures ReplaceFirst(sb, a, x) == s[..i] + x + s[i + |a|..j] + y + s[j + |b|..]
  {
    FirstKeptBeforeSplice(s, a, i, j, |b|, y, sb);
    ReplaceAt(sb, a, x, i);
    SpliceBeforeSplice(s, i, |a|, x, j, |b|, y, sb, ReplaceFirst(sb, a, x));
  }

  /** Two first-occurrence replacements commute when the first-occurring
      pattern `a` ends before `b` starts and replacing `a` by `x` does not
      create an earlier occurrence of `b`. */
  lemma {:induction false} ReplaceFirstCommutes(s: string, a: string, x: string, b: string, y: string, i: nat, j: nat)
    requires FirstAt(s, a, i) && FirstAt(s, b, j) && i + |a| <= j
    requires NoneBefore(ReplaceFirst(s, a, x), b, j - |a| + |x|)
    ensures ReplaceFirst(ReplaceFirst(s, a, x), b, y) == ReplaceFirst(ReplaceFirst(s, b, y), a, x)
  {
    ReplaceAThenB(s, a, x, b, y, i, j);
    ReplaceBThenA(s, a, x, b, y, i, j);
  }

  /** `sep` does not appear in `s`. */
  predicate Free(s: string, sep: char) {
    forall i | 0 <= i < |s| :: s[i] != sep
  }

  lemma FreeConcat(a: string, c: char, b: string, sep: char)
    requires Free(a, sep) && c != sep && Free(b, sep)
    ensures Free(a + [c] + b, sep)
  {
    var s := a + [c] + b;
    forall i | 0 <= i < |s| ensures s[i] != sep {
      if i < |a| {
        assert s[i] == a[i];
      } else if i > |a| {
        assert s[i] == b[i - |a| - 1];
      }
    }
  }

  /** The pieces joined with one `sep` between neighbours, as `strings.Join`. */
  function Join(sep: char, parts: seq<string>): string
  {
    if |parts| == 0 then ""
    else if |parts| == 1 then parts[0]
    else parts[0] + [sep] + Join(sep, parts[1..])
  }

  lemma Join4(sep: char, a: string, b: string, c: string, d: string)
    ensures Join(sep, [a, b, c, d]) == a + [sep] + b + [sep] + c + [sep] + d
  {
    assert [a, b, c, d][1..] == [b, c, d];
    assert [b, c, d][1..] == [c, d];
    assert [c, d][1..] == [d];
    assert Join(sep, [c, d]) == c + [sep] + d;
    assert Join(sep, [b, c, d]) == b + [sep] + (c + [sep] + d);
    assert Join(sep, [a, b, c, d]) == a + [sep] + (b + [sep] + (c + [sep] + d));
  }

  /** `strings.Split(s, string(sep))`: the maximal `sep`-free pieces of `s`,
      always at least one. */
  function Split(s: string, sep: char): (parts: seq<string>)
    ensures |parts| > 0
    ensures forall k | 0 <= k < |parts| :: Free(parts[k], sep)
  {
    if |s| == 0 then [""]
    else
      var rest := Split(s[1..], sep);
      if s[0] == sep then [""] + rest
      else [[s[0]] + rest[0]] + rest[1..]
  }

  lemma {:induction false} SplitFree(s: string, sep: char)
    requires Free(s, sep)
    ensures Split(s, sep) == [s]
  {
    if |s| > 0 {
      SplitFree(s[1..], sep);
      assert [s[0]] + s[1..] == s;
    }
  }

  lemma {:induction false} SplitPiece(p: string, sep: char, rest: string)
    requires Free(p, sep)
    ensures Split(p + [sep] + rest, sep) == [p] + Split(rest, sep)
  {
    if |p| == 0 {
      assert p + [sep] + rest == [sep] + rest;
      assert ([sep] + rest)[1..] == rest;
    } else {
      var s := p + [sep] + rest;
      assert s[1..] == p[1..] + [sep] + rest;
      SplitPiece(p[1..], sep, rest);
      assert [p[0]] + p[1..] == p;
    }
  }

  /** Splitting undoes joining when no piece contains the separator. */
  lemma {:induction false} SplitJoin(parts: seq<string>, sep: char)
    requires |parts| > 0
    requires forall k | 0 <= k < |parts| :: Free(parts[k], sep)
    ensures Split(Join(sep, parts), sep) == parts
  {
    if |parts| == 1 {
      SplitFree(parts[0], sep);
    } else {
      SplitJoin(parts[1..], sep);
      SplitPiece(parts[0], sep, Join(sep, parts[1..]));
    }
  }

  /** `strings.Cut(s, [sep])`: the text before the first `sep` and the text
      after it; the whole of `s` and "" when there is none. */
  function Cut(s: string, sep: char): (r: (string, string))
    ensures Free(s, sep) ==> r == (s, "")
    ensures !Free(s, sep) ==> r.0 + [sep] + r.1 == s && Free(r.0, sep)
  {
    if |s| == 0 then (s, "")
    else if s[0] == sep then ("", s[1..])
    else
      var (before, after) := Cut(s[1..], sep);
      assert [s[0]] + s[1..] == s;
      ([s[0]] + before, after)
  }

  /** Cutting at the first separator recovers a `sep`-free head and the rest. */
  lemma {:induction false} CutPiece(p: string, sep: char, q: string)
    requires Free(p, sep)
    ensures Cut(p + [sep] + q, sep) == (p, q)
  {
    if |p| == 0 {
      assert p + [sep] + q == [sep] + q;
      assert ([sep] + q)[1..] == q;
    } else {
      var s := p + [sep] + q;
      assert s[1..] == p[1..] + [sep] + q;
      CutPiece(p[1..], sep, q);
      assert [p[0]] + p[1..] == p;
    }
  }

  /** ASCII upper case mapped to lower case; every other character unchanged. */
  function AsciiLower(c: char): char {
    if 'A' <= c <= 'Z' then (c as int + 32) as char else c
  }

  /** ASCII lower case mapped to upper case; every other character unchanged. */
  function AsciiUpper(c: char): char {
    if 'a' <= c <= 'z' then (c as int - 32) as char else c
  }

  function LowerAscii(s: string): (r: string)
    ensures |r| == |s| && forall i | 0 <= i < |s| :: r[i] == AsciiLower(s[i])
  {
    seq(|s|, i requires 0 <= i < |s| => AsciiLower(s[i]))
  }
}

/** Path-template resolution, the loop `parsePath` (request.go) and
    `parseParams` (client.go) share: for each parameter, in map iteration
    order, the first `":" + key` still in the path is replaced by the text of
    the parameter's value, when that text is not empty. */
module Template {
  import opened GoMaps
  import opened Decimal
  import opened Scalars
  import opened Text

  /** The placeholder a parameter named `key` fills. */
  function Placeholder(key: string): (p: string)
    ensures |p| == |key| + 1 && p[0] == ':' && p[1..] == key
  {
    ":" + key
  }

  /** One iteration of the loop: a non-empty text replaces the leftmost
      placeholder of `key`; an empty text, or a path without the
      placeholder, is left as it is. */
  function Step(path: string, key: string, v: Value): (r: string)
    ensures PathText(v) == "" || Absent(path, Placeholder(key)) ==> r == path
    ensures PathText(v) != "" ==>
      forall i: nat | FirstAt(path, Placeholder(key), i) :: r == path[..i] + PathText(v) + path[i + |key| + 1..]
  {
    var p := PathText(v);
    if p != "" then ReplaceFirst(path, Placeholder(key), p) else path
  }

  /** The whole loop over `params`, listed in one iteration order. When no
      value has a text, the path comes back unchanged. */
  function Resolve(path: string, params: seq<(string, Value)>): (r: string)
    ensures (forall i | 0 <= i < |params| :: PathText(params[i].1) == "") ==> r == path
    decreases |params|
  {
    if |params| == 0 then path
    else Resolve(Step(path, params[0].0, params[0].1), params[1..])
  }

  /** The loop over `a` then `b` is the loop over `a`, continued over `b`. */
  lemma {:induction false} ResolveAppend(path: string, a: seq<(string, Value)>, b: seq<(string, Value)>)
    ensures Resolve(path, a + b) == Resolve(Resolve(path, a), b)
    decreases |a|
  {
    if |a| > 0 {
      var next := Step(path, a[0].0, a[0].1);
      assert (a + b)[0] == a[0];
      assert (a + b)[1..] == a[1..] + b;
      assert Resolve(path, a + b) == Resolve(next, a[1..] + b);
      ResolveAppend(next, a[1..], b);
      assert Resolve(path, a) == Resolve(next, a[1..]);
    } else {
      assert a + b == b;
    }
  }

  /** A parameter whose value has no text (an unsupported tag, or an empty
      string) does not affect the result: dropping it changes nothing. */
  lemma ResolveSkips(path: string, params: seq<(string, Value)>, i: nat)
    requires i < |params| && PathText(params[i].1) == ""
    ensures Resolve(path, params) == Resolve(path, params[..i] + params[i + 1..])
  {
    var a := params[..i];
    var b := params[i + 1..];
    assert params == a + ([params[i]] + b);
    ResolveAppend(path, a, [params[i]] + b);
    ResolveAppend(path, a, b);
    assert ([params[i]] + b)[1..] == b;
  }

  /** A single parameter with a text replaces exactly the leftmost
      placeholder of its key and leaves the rest of the path as it was. */
  lemma ResolveOne(path: string, key: string, v: Value, i: nat)
    requires PathText(v) != "" && FirstAt(path, Placeholder(key), i)
    ensures Resolve(path, [(key, v)]) == path[..i] + PathText(v) + path[i + |key| + 1..]
  {
    ResolveSingle(path, (key, v));
    StepAt(path, key, v, i);
  }

  /** A later placeholder of the same key is not filled: it is still there,
      shifted by the change in length. */
  lemma ResolveKeepsLater(path: string, key: string, v: Value, i: nat, j: nat)
    requires PathText(v) != "" && FirstAt(path, Placeholder(key), i)
    requires i + |key| + 1 <= j && OccursAt(path, Placeholder(key), j)
    ensures OccursAt(Resolve(path, [(key, v)]), Placeholder(key), j - |key| - 1 + |PathText(v)|)
  {
    ResolveOne(path, key, v, i);
    KeptAfterResolve(path, key, v, i, j);
  }

  lemma KeptAfterResolve(path: string, key: string, v: Value, i: nat, j: nat)
    requires i + |key| + 1 <= j && OccursAt(path, Placeholder(key), j)
    requires Resolve(path, [(key, v)]) == path[..i] + PathText(v) + path[i + |key| + 1..]
    ensures OccursAt(Resolve(path, [(key, v)]), Placeholder(key), j - |key| - 1 + |PathText(v)|)
  {
    KeptBehind(path, i, key, PathText(v), Resolve(path, [(key, v)]), j);
  }

  /** A placeholder behind a splice at `i` survives it. */
  lemma KeptBehind(path: string, i: nat, key: string, t: string, r: string, j: nat)
    requires i + |key| + 1 <= j && OccursAt(path, Placeholder(key), j)
    requires r == path[..i] + t + path[i + |key| + 1..]
    ensures OccursAt(r, Placeholder(key), j - |key| - 1 + |t|)
  {
    SpliceKeeps(path, i, |key| + 1, t, Placeholder(key), j);
  }

  lemma StepAt(path: string, key: string, v: Value, i: nat)
    requires PathText(v) != "" && FirstAt(path, Placeholder(key), i)
    ensures Step(path, key, v) == path[..i] + PathText(v) + path[i + |key| + 1..]
  {
  }

  /** Two parameters give the same path in either iteration order when the
      first placeholder of `k1` ends before that of `k2` starts and the text
      of `v1` does not put a placeholder of `k2` in front of it. */
  lemma ResolveSwap(path: string, k1: string, v1: Value, k2: string, v2: Value, i: nat, j: nat)
    requires PathText(v1) != "" && PathText(v2) != ""
    requires FirstAt(path, Placeholder(k1), i) && FirstAt(path, Placeholder(k2), j)
    requires i + |k1| + 1 <= j
    requires NoneBefore(Step(path, k1, v1), Placeholder(k2), j - |k1| - 1 + |PathText(v1)|)
    ensures Resolve(path, [(k1, v1), (k2, v2)]) == Resolve(path, [(k2, v2), (k1, v1)])
  {
    assert Resolve(path, [(k1, v1), (k2, v2)]) == Step(Step(path, k1, v1), k2, v2);
    assert Resolve(path, [(k2, v2), (k1, v1)]) == Step(Step(path, k2, v2), k1, v1);
    ReplaceFirstCommutes(path, Placeholder(k1), PathText(v1), Placeholder(k2), PathText(v2), i, j);
  }

  lemma ReplaceALiterals()
    ensures Placeholder("a") == ":a" && FirstAt(":k:a", ":a", 2)
    ensures ":k:a"[..2] + "2" + ":k:a"[4..] == ":k2"
  {
    var s := ":k:a";
    assert !OccursAt(s, ":a", 0) && !OccursAt(s, ":a", 1) by {
      assert s[0..2] == ":k" && s[1..3] == "k:";
    }
    assert OccursAt(s, ":a", 2) by {
      assert s[2..4] == ":a";
    }
  }

  lemma ReplaceA()
    ensures Step(":k:a", "a", VString("2")) == ":k2"
  {
    ReplaceALiterals();
    ReplaceAt(":k:a", ":a", "2", 2);
  }

  lemma ReplaceK2()
    ensures Step(":k2", "k2", VString("v")) == "v"
  {
    assert OccursAt(":k2", ":k2", 0) by {
      assert ":k2"[0..3] == ":k2";
    }
    ReplaceAt(":k2", ":k2", "v", 0);
  }

  lemma MissK2()
    ensures Step(":k:a", "k2", VString("v")) == ":k:a"
  {
    var s := ":k:a";
    assert Placeholder("k2") == ":k2";
    assert Absent(s, ":k2") by {
      forall i: nat | i <= |s| ensures !OccursAt(s, ":k2", i) {
        if i + 3 <= |s| {
          assert s[i..i + 3][2] == s[i + 2];
        }
      }
    }
  }

  /** Two loop iterations. */
  lemma ResolveTwo(path: string, p: (string, Value), q: (string, Value))
    ensures Resolve(path, [p, q]) == Step(Step(path, p.0, p.1), q.0, q.1)
  {
    assert [p, q][1..] == [q];
  }

  /** The iteration order can matter even when no placeholder name is a
      prefix of another and no substituted text holds a placeholder: with
      `a` set to "2" and `k2` set to "v", the path ":k:a" resolves to "v" in
      one order and to ":k2" in the other. */
  lemma OrderMatters()
    ensures Resolve(":k:a", [("a", VString("2")), ("k2", VString("v"))]) == "v"
    ensures Resolve(":k:a", [("k2", VString("v")), ("a", VString("2"))]) == ":k2"
  {
    ResolveTwo(":k:a", ("a", VString("2")), ("k2", VString("v")));
    ResolveTwo(":k:a", ("k2", VString("v")), ("a", VString("2")));
    ReplaceA();
    ReplaceK2();
    MissK2();
  }

  /** No placeholder starts before the first colon. */
  lemma NoColonBefore(s: string, key: string, i: nat)
    requires i <= |s| && forall k | 0 <= k < i :: s[k] != ':'
    ensures NoneBefore(s, Placeholder(key), i)
  {
  }

  /** A placeholder behind a colon-free prefix is the one filled. */
  lemma StepFills(path: string, pre: string, key: string, post: string, v: Value)
    requires path == pre + Placeholder(key) + post
    requires Free(pre, ':') && PathText(v) != ""
    ensures Step(path, key, v) == pre + PathText(v) + post
  {
    var i := |pre|;
    assert path[i..i + |key| + 1] == Placeholder(key);
    assert forall k | 0 <= k < i :: path[k] == pre[k];
    NoColonBefore(path, key, i);
    StepAt(path, key, v, i);
    assert path[..i] == pre;
    assert path[i + |key| + 1..] == post;
  }

  lemma ResolveSingle(path: string, p: (string, Value))
    ensures Resolve(path, [p]) == Step(path, p.0, p.1)
  {
  }

  lemma ResolveThree(path: string, p: (string, Value), q: (string, Value), r: (string, Value))
    ensures Resolve(path, [p, q, r]) == Step(Step(Step(path, p.0, p.1), q.0, q.1), r.0, r.1)
  {
    assert [p, q, r][1..] == [q, r];
    ResolveTwo(Step(path, p.0, p.1), q, r);
  }

  /** A path laid out as a colon-free `lead`, then for each part the
      placeholder of its key followed by its colon-free tail. */
  function Layout(lead: string, parts: seq<(string, string)>): string
    decreases |parts|
  {
    if |parts| == 0 then lead
    else Layout(lead + Placeholder(parts[0].0) + parts[0].1, parts[1..])
  }

  /** The same layout with each placeholder replaced by the text of the
      parameter at the same position. */
  function Filled(lead: string, parts: seq<(string, string)>, params: seq<(string, Value)>): string
    requires |parts| == |params|
    decreases |parts|
  {
    if |parts| == 0 then lead
    else Filled(lead + PathText(params[0].1) + parts[0].1, parts[1..], params[1..])
  }

  /** Text in front of a layout stays in front. */
  lemma {:induction false} LayoutPrefix(x: string, lead: string, parts: seq<(string, string)>)
    ensures Layout(x + lead, parts) == x + Layout(lead, parts)
    decreases |parts|
  {
    if |parts| > 0 {
      var next := lead + Placeholder(parts[0].0) + parts[0].1;
      assert x + lead + Placeholder(parts[0].0) + parts[0].1 == x + next;
      LayoutPrefix(x, next, parts[1..]);
    }
  }

  /** A parameter's text that holds no colon. */
  predicate PlainText(v: Value) {
    PathText(v) != "" && Free(PathText(v), ':')
  }

  /** When the placeholders appear in the path in the order the parameters
      are visited, and no text involved holds a colon, each placeholder is
      filled by its own parameter: the loop resolves the path left to
      right. */
  lemma {:induction false} ResolveInOrder(lead: string, parts: seq<(string, string)>, params: seq<(string, Value)>)
    requires |parts| == |params|
    requires Free(lead, ':')
    requires forall i | 0 <= i < |parts| :: parts[i].0 == params[i].0 && Free(parts[i].1, ':') && PlainText(params[i].1)
    ensures Resolve(Layout(lead, parts), params) == Filled(lead, parts, params)
    decreases |parts|
  {
    if |parts| > 0 {
      var (key, tail) := parts[0];
      var t := PathText(params[0].1);
      var rest := Layout(tail, parts[1..]);
      LayoutPrefix(lead + Placeholder(key), tail, parts[1..]);
      assert Layout(lead, parts) == lead + Placeholder(key) + rest;
      StepFills(Layout(lead, parts), lead, key, rest, params[0].1);
      LayoutPrefix(lead + t, tail, parts[1..]);
      var lead' := lead + t + tail;
      FreeConcat3(lead, t, tail);
      ResolveInOrder(lead', parts[1..], params[1..]);
    }
  }

  /** Colon-free pieces make a colon-free string. */
  lemma FreeConcat3(a: string, b: string, c: string)
    requires Free(a, ':') && Free(b, ':') && Free(c, ':')
    ensures Free(a + b + c, ':')
  {
    var s := a + b + c;
    forall k | 0 <= k < |s| ensures s[k] != ':' {
      if k < |a| {
        assert s[k] == a[k];
      } else if k < |a| + |b| {
        assert s[k] == b[k - |a|];
      } else {
        assert s[k] == c[k - |a| - |b|];
      }
    }
  }

  /** Path segments written one after another, each a piece (a
      placeholder, or the text that filled it) followed by its tail. */
  function Chain(segs: seq<(string, string)>): string
    decreases |segs|
  {
    if |segs| == 0 then "" else segs[0].0 + segs[0].1 + Chain(segs[1..])
  }

  lemma {:induction false} ChainSplit(segs: seq<(string, string)>, j: nat)
    requires j < |segs|
    ensures Chain(segs) == Chain(segs[..j]) + segs[j].0 + segs[j].1 + Chain(segs[j + 1..])
    decreases j
  {
    if j > 0 {
      ChainSplit(segs[1..], j - 1);
      assert segs[1..][..j - 1] == segs[..j][1..];
      assert segs[1..][j - 1] == segs[j] && segs[1..][j..] == segs[j + 1..];
      assert Chain(segs[..j]) == segs[0].0 + segs[0].1 + Chain(segs[..j][1..]);
    } else {
      assert segs[..0] == [] && segs[1..] == segs[j + 1..];
    }
  }

  /** No placeholder of `key` starts inside `x`, whatever follows it. */
  ghost predicate Shielded(x: string, key: string) {
    forall p: nat, y: string | p < |x| :: !OccursAt(x + y, Placeholder(key), p)
  }

  lemma OccursShift(a: string, z: string, pat: string, p: nat)
    requires |a| <= p
    ensures OccursAt(a + z, pat, p) == OccursAt(z, pat, p - |a|)
  {
    if p + |pat| <= |a + z| {
      assert (a + z)[p..p + |pat|] == z[p - |a|..p - |a| + |pat|];
    }
  }

  /** A colon-free string holds no placeholder. */
  lemma FreeShielded(x: string, key: string)
    requires Free(x, ':')
    ensures Shielded(x, key)
  {
    forall p: nat, y: string | p < |x| ensures !OccursAt(x + y, Placeholder(key), p) {
      assert (x + y)[p] == x[p] != ':';
      assert Placeholder(key)[0] == ':';
    }
  }

  /** The placeholder of a key that is no prefix of `key`, and of which
      `key` is no prefix, holds no placeholder of `key`. */
  lemma PlaceholderShielded(k: string, key: string)
    requires Free(k, ':') && !(k <= key) && !(key <= k)
    ensures Shielded(Placeholder(k), key)
  {
    var x := Placeholder(k);
    Mismatch(k, key);
    var m :| 0 <= m < |key| && m < |k| && key[m] != k[m];
    forall p: nat, y: string | p < |x| ensures !OccursAt(x + y, Placeholder(key), p) {
      var s := x + y;
      if p > 0 {
        assert s[p] == k[p - 1] != ':';
        assert Placeholder(key)[0] == ':';
      } else {
        assert s[m + 1] == k[m];
        assert Placeholder(key)[m + 1] == key[m];
      }
    }
  }

  /** Keys that are not prefixes of each other differ at some index both
      have. */
  lemma Mismatch(k: string, key: string)
    requires !(k <= key) && !(key <= k)
    ensures exists m | 0 <= m < |key| && m < |k| :: key[m] != k[m]
  {
    if |key| <= |k| {
      assert key != k[..|key|];
    } else {
      assert k != key[..|k|];
    }
  }

  lemma ShieldedConcat(a: string, b: string, key: string)
    requires Shielded(a, key) && Shielded(b, key)
    ensures Shielded(a + b, key)
  {
    forall p: nat, y: string | p < |a + b| ensures !OccursAt(a + b + y, Placeholder(key), p) {
      assert a + b + y == a + (b + y);
      if |a| <= p {
        OccursShift(a, b + y, Placeholder(key), p);
      }
    }
  }

  lemma {:induction false} ChainShielded(segs: seq<(string, string)>, key: string)
    requires forall i | 0 <= i < |segs| :: Shielded(segs[i].0, key) && Free(segs[i].1, ':')
    ensures Shielded(Chain(segs), key)
    decreases |segs|
  {
    if |segs| > 0 {
      ChainShielded(segs[1..], key);
      FreeShielded(segs[0].1, key);
      ShieldedConcat(segs[0].0, segs[0].1, key);
      ShieldedConcat(segs[0].0 + segs[0].1, Chain(segs[1..]), key);
    }
  }

  /** The placeholder of segment `j` is the first of its key when every
      segment in front of it is shielded from `key`. */
  lemma FirstInChain(lead: string, segs: seq<(string, string)>, j: nat, key: string)
    requires j < |segs| && segs[j].0 == Placeholder(key)
    requires Free(lead, ':')
    requires forall i | 0 <= i < j :: Shielded(segs[i].0, key) && Free(segs[i].1, ':')
    ensures FirstAt(lead + Chain(segs), Placeholder(key), |lead + Chain(segs[..j])|)
  {
    var front := segs[..j];
    FreeShielded(lead, key);
    assert forall i | 0 <= i < |front| :: front[i] == segs[i];
    ChainShielded(front, key);
    ShieldedConcat(lead, Chain(front), key);
    ChainSplit(segs, j);
    Regroup(lead, Chain(front), Placeholder(key), segs[j].1, Chain(segs[j + 1..]));
    ShieldedFirst(lead + Chain(front), key, segs[j].1 + Chain(segs[j + 1..]));
  }

  /** A placeholder right behind a shielded prefix is the first of its key. */
  lemma ShieldedFirst(a: string, key: string, rest: string)
    requires Shielded(a, key)
    ensures FirstAt(a + Placeholder(key) + rest, Placeholder(key), |a|)
  {
    var s := a + Placeholder(key) + rest;
    assert s == a + (Placeholder(key) + rest);
    assert s[|a|..|a| + |key| + 1] == Placeholder(key);
  }

  /** A layout with the parameters still to visit (those in `order`)
      showing their placeholders, and the others their texts. */
  function Pending(parts: seq<(string, string)>, params: seq<(string, Value)>, order: seq<nat>): seq<(string, string)>
    requires |params| == |parts|
  {
    seq(|parts|, i requires 0 <= i < |parts| =>
      (if i as nat in order then Placeholder(parts[i].0) else PathText(params[i].1), parts[i].1))
  }

  /** The conditions under which the iteration order does not matter: a
      colon-free lead, tails and texts, colon-free keys of which none is a
      prefix of another, and the parameters listed in the layout's order. */
  predicate Separated(lead: string, parts: seq<(string, string)>, params: seq<(string, Value)>) {
    && |params| == |parts|
    && Free(lead, ':')
    && (forall i | 0 <= i < |parts| ::
          parts[i].0 == params[i].0 && Free(parts[i].0, ':') && Free(parts[i].1, ':') && PlainText(params[i].1))
    && (forall i, j | 0 <= i < |parts| && 0 <= j < |parts| && i != j :: !(parts[i].0 <= parts[j].0))
  }

  /** Replacing the middle of `a + m + r`. */
  lemma SpliceMiddle(s: string, a: string, m: string, r: string)
    requires s == a + m + r
    ensures s[..|a|] == a && s[|a| + |m|..] == r
  {
  }

  /** Filling the placeholder of segment `j` is one loop step, when every
      segment in front of it is shielded from `key`. */
  lemma StepChain(lead: string, segs: seq<(string, string)>, j: nat, key: string, v: Value)
    requires j < |segs| && segs[j].0 == Placeholder(key) && PathText(v) != ""
    requires Free(lead, ':')
    requires forall i | 0 <= i < j :: Shielded(segs[i].0, key) && Free(segs[i].1, ':')
    ensures Step(lead + Chain(segs), key, v) == lead + Chain(segs[j := (PathText(v), segs[j].1)])
  {
    var a := lead + Chain(segs[..j]);
    var rest := segs[j].1 + Chain(segs[j + 1..]);
    var s := lead + Chain(segs);
    var t := segs[j := (PathText(v), segs[j].1)];
    ChainSplit(segs, j);
    ChainSplit(t, j);
    assert t[..j] == segs[..j] && t[j + 1..] == segs[j + 1..];
    FirstInChain(lead, segs, j, key);
    StepAt(s, key, v, |a|);
    Regroup(lead, Chain(segs[..j]), Placeholder(key), segs[j].1, Chain(segs[j + 1..]));
    SpliceMiddle(s, a, Placeholder(key), rest);
    Regroup(lead, Chain(segs[..j]), PathText(v), segs[j].1, Chain(segs[j + 1..]));
  }

  lemma Regroup(l: string, c: string, m: string, t: string, r: string)
    ensures l + (c + m + t + r) == (l + c) + m + (t + r)
  {
  }

  /** The layout with every placeholder still in place. */
  function Holes(parts: seq<(string, string)>): seq<(string, string)> {
    seq(|parts|, i requires 0 <= i < |parts| => (Placeholder(parts[i].0), parts[i].1))
  }

  lemma {:induction false} LayoutChain(lead: string, parts: seq<(string, string)>)
    ensures Layout(lead, parts) == lead + Chain(Holes(parts))
    decreases |parts|
  {
    if |parts| > 0 {
      var next := lead + Placeholder(parts[0].0) + parts[0].1;
      LayoutChain(next, parts[1..]);
      assert Holes(parts)[0] == (Placeholder(parts[0].0), parts[0].1);
      assert Holes(parts)[1..] == Holes(parts[1..]);
    }
  }

  /** Before the loop every parameter is pending. */
  lemma PendingAll(parts: seq<(string, string)>, params: seq<(string, Value)>, order: seq<nat>)
    requires |params| == |parts|
    requires forall i: nat | i < |parts| :: i in order
    ensures Pending(parts, params, order) == Holes(parts)
  {
  }

  /** The layout with every placeholder filled. */
  function Texts(parts: seq<(string, string)>, params: seq<(string, Value)>): seq<(string, string)>
    requires |params| == |parts|
  {
    seq(|parts|, i requires 0 <= i < |parts| => (PathText(params[i].1), parts[i].1))
  }

  lemma {:induction false} FilledChain(lead: string, parts: seq<(string, string)>, params: seq<(string, Value)>)
    requires |params| == |parts|
    ensures Filled(lead, parts, params) == lead + Chain(Texts(parts, params))
    decreases |parts|
  {
    if |parts| > 0 {
      var next := lead + PathText(params[0].1) + parts[0].1;
      FilledChain(next, parts[1..], params[1..]);
      assert Texts(parts, params)[0] == (PathText(params[0].1), parts[0].1);
      assert Texts(parts, params)[1..] == Texts(parts[1..], params[1..]);
    }
  }

  /** After the loop no parameter is pending. */
  lemma PendingNone(parts: seq<(string, string)>, params: seq<(string, Value)>)
    requires |params| == |parts|
    ensures Pending(parts, params, []) == Texts(parts, params)
  {
  }

  /** Visiting the next pending parameter turns its placeholder into its
      text. */
  lemma PendingVisit(parts: seq<(string, string)>, params: seq<(string, Value)>, order: seq<nat>)
    requires |params| == |parts| && |order| > 0
    requires forall a | 0 <= a < |order| :: order[a] < |params|
    requires forall a, b | 0 <= a < b < |order| :: order[a] != order[b]
    ensures Pending(parts, params, order)[order[0] := (PathText(params[order[0]].1), parts[order[0]].1)]
      == Pending(parts, params, order[1..])
  {
    assert order[0] !in order[1..];
  }

  /** Every segment is shielded from the key of another pending
      parameter. */
  lemma PendingShielded(lead: string, parts: seq<(string, string)>, params: seq<(string, Value)>, order: seq<nat>, j: nat)
    requires Separated(lead, parts, params) && j < |parts|
    requires forall a | 0 <= a < |order| :: order[a] < |params|
    ensures forall i | 0 <= i < |parts| && i != j ::
      Shielded(Pending(parts, params, order)[i].0, parts[j].0) && Free(Pending(parts, params, order)[i].1, ':')
  {
    var segs := Pending(parts, params, order);
    forall i | 0 <= i < |parts| && i != j ensures Shielded(segs[i].0, parts[j].0) && Free(segs[i].1, ':') {
      if i as nat in order {
        PlaceholderShielded(parts[i].0, parts[j].0);
      } else {
        FreeShielded(segs[i].0, parts[j].0);
      }
    }
  }

  lemma ReorderNext(params: seq<(string, Value)>, order: seq<nat>)
    requires |order| > 0 && forall a | 0 <= a < |order| :: order[a] < |params|
    ensures Reorder(params, order)[0] == params[order[0]]
    ensures Reorder(params, order)[1..] == Reorder(params, order[1..])
  {
  }

  /** Visiting the pending parameters in any order fills every one of them. */
  lemma {:induction false} ResolvePending(lead: string, parts: seq<(string, string)>, params: seq<(string, Value)>, order: seq<nat>)
    requires Separated(lead, parts, params)
    requires forall a | 0 <= a < |order| :: order[a] < |params|
    requires forall a, b | 0 <= a < b < |order| :: order[a] != order[b]
    ensures Resolve(lead + Chain(Pending(parts, params, order)), Reorder(params, order))
      == lead + Chain(Pending(parts, params, []))
    decreases |order|
  {
    if |order| > 0 {
      var j := order[0];
      var segs := Pending(parts, params, order);
      ReorderNext(params, order);
      assert params[j].0 == parts[j].0;
      PendingShielded(lead, parts, params, order, j);
      assert segs[j].0 == Placeholder(parts[j].0);
      StepChain(lead, segs, j, parts[j].0, params[j].1);
      PendingVisit(parts, params, order);
      ResolvePending(lead, parts, params, order[1..]);
    }
  }

  /** Under `Separated`, every iteration order of the parameters resolves
      the layout alike: each placeholder is filled by its own parameter,
      whichever the loop visits first. */
  lemma ResolveAnyOrder(lead: string, parts: seq<(string, string)>, params: seq<(string, Value)>, order: seq<nat>)
    requires Separated(lead, parts, params)
    requires Permutation(order, |params|)
    ensures Resolve(Layout(lead, parts), Reorder(params, order)) == Filled(lead, parts, params)
  {
    LayoutChain(lead, parts);
    PendingAll(parts, params, order);
    ResolvePending(lead, parts, params, order);
    PendingNone(parts, params);
    FilledChain(lead, parts, params);
  }

  /** "/test/:test" with a value whose text is `t`. */
  lemma SingleExample(path: string, v: Value, t: string)
    requires path == "/test/:test" && PathText(v) == t && t != ""
    ensures Resolve(path, [("test", v)]) == "/test/" + t
  {
    ResolveSingle(path, ("test", v));
    TestPath();
    StepFills(path, "/test/", "test", "", v);
  }

  /** "/test/:test" is a colon-free lead and one placeholder. */
  lemma TestPath()
    ensures "/test/:test" == "/test/" + Placeholder("test") + ""
    ensures Free("/test/", ':')
  {
  }

  /** "/test/:test" with an integer, as the request tests expect. */
  lemma IntExample()
    ensures Resolve("/test/:test", [("test", VInt(1))]) == "/test/1"
  {
    FormatExamples();
    SingleExample("/test/:test", VInt(1), "1");
  }

  /** "/test/:test" with the float 1.1, as the request tests expect. */
  lemma FloatExample(f: Float64)
    requires f == Finite(false, 1100000)
    ensures Resolve("/test/:test", [("test", VFloat64(f))]) == "/test/" + "1.100000"
  {
    FormatExamples();
    SingleExample("/test/:test", VFloat64(f), "1.100000");
  }

  /** "/test/:test" with a string, as the request tests expect. */
  lemma StringExample()
    ensures Resolve("/test/:test", [("test", VString("test"))]) == "/test/" + "test"
  {
    SingleExample("/test/:test", VString("test"), "test");
  }

  /** Three placeholders, each filled by its own parameter in every
      iteration order, when no key is a prefix of another. */
  lemma ResolveThreeAnyOrder(lead: string, k1: string, t1: string, k2: string, t2: string,
                             k3: string, t3: string, a: Value, b: Value, c: Value, order: seq<nat>)
    requires Free(lead, ':') && Free(t1, ':') && Free(t2, ':') && Free(t3, ':')
    requires Free(k1, ':') && Free(k2, ':') && Free(k3, ':')
    requires !(k1 <= k2) && !(k2 <= k1) && !(k1 <= k3) && !(k3 <= k1) && !(k2 <= k3) && !(k3 <= k2)
    requires PlainText(a) && PlainText(b) && PlainText(c)
    requires Permutation(order, 3)
    ensures Resolve(lead + Placeholder(k1) + t1 + Placeholder(k2) + t2 + Placeholder(k3) + t3,
                    Reorder([(k1, a), (k2, b), (k3, c)], order))
      == lead + PathText(a) + t1 + PathText(b) + t2 + PathText(c) + t3
  {
    var parts := [(k1, t1), (k2, t2), (k3, t3)];
    var params := [(k1, a), (k2, b), (k3, c)];
    assert parts[1..] == [(k2, t2), (k3, t3)] && parts[1..][1..] == [(k3, t3)];
    assert params[1..] == [(k2, b), (k3, c)] && params[1..][1..] == [(k3, c)];
    var l1 := lead + Placeholder(k1) + t1;
    var l2 := l1 + Placeholder(k2) + t2;
    assert Layout(lead, parts) == Layout(l1, parts[1..]);
    assert Layout(l1, parts[1..]) == Layout(l2, parts[1..][1..]);
    assert Layout(l2, parts[1..][1..]) == l2 + Placeholder(k3) + t3;
    var f1 := lead + PathText(a) + t1;
    var f2 := f1 + PathText(b) + t2;
    assert Filled(lead, parts, params) == Filled(f1, parts[1..], params[1..]);
    assert Filled(f1, parts[1..], params[1..]) == Filled(f2, parts[1..][1..], params[1..][1..]);
    assert Filled(f2, parts[1..][1..], params[1..][1..]) == f2 + PathText(c) + t3;
    SeparatedThree(lead, k1, t1, k2, t2, k3, t3, a, b, c);
    ResolveAnyOrder(lead, parts, params, order);
  }

  lemma SeparatedThree(lead: string, k1: string, t1: string, k2: string, t2: string,
                       k3: string, t3: string, a: Value, b: Value, c: Value)
    requires Free(lead, ':') && Free(t1, ':') && Free(t2, ':') && Free(t3, ':')
    requires Free(k1, ':') && Free(k2, ':') && Free(k3, ':')
    requires !(k1 <= k2) && !(k2 <= k1) && !(k1 <= k3) && !(k3 <= k1) && !(k2 <= k3) && !(k3 <= k2)
    requires PlainText(a) && PlainText(b) && PlainText(c)
    ensures Separated(lead, [(k1, t1), (k2, t2), (k3, t3)], [(k1, a), (k2, b), (k3, c)])
  {
    var parts := [(k1, t1), (k2, t2), (k3, t3)];
    forall i, j | 0 <= i < 3 && 0 <= j < 3 && i != j ensures !(parts[i].0 <= parts[j].0) {
      if i == 0 && j == 1 {
      } else if i == 0 {
        assert j == 2;
      } else if i == 1 && j == 0 {
      } else if i == 1 {
        assert j == 2;
      } else if j == 0 {
      } else {
        assert i == 2 && j == 1;
      }
    }
  }

  /** The literal facts the three-placeholder example rests on. */
  lemma MultipleLiterals()
    ensures "/test/:test1/:test2/:test3" == "/test/" + Placeholder("test1") + "/" + Placeholder("test2") + "/" + Placeholder("test3") + ""
  {
  }

  lemma MultipleFree()
    ensures Free("/test/", ':') && Free("/", ':') && Free("", ':')
    ensures Free("teststring", ':') && Free("1", ':') && Free("1.100000", ':')
    ensures Free("test1", ':') && Free("test2", ':') && Free("test3", ':')
  {
  }

  /** "test1", "test2" and "test3" differ in their last letter. */
  lemma MultipleKeys()
    ensures !("test1" <= "test2") && !("test2" <= "test1") && !("test1" <= "test3")
    ensures !("test3" <= "test1") && !("test2" <= "test3") && !("test3" <= "test2")
  {
    assert "test1"[4] != "test2"[4] && "test1"[4] != "test3"[4] && "test2"[4] != "test3"[4];
  }

  lemma MultipleSteps(path: string, a: Value, b: Value, c: Value, order: seq<nat>)
    requires path == "/test/:test1/:test2/:test3"
    requires PathText(a) == "teststring" && PathText(b) == "1" && PathText(c) == "1.100000"
    requires Permutation(order, 3)
    ensures Resolve(path, Reorder([("test1", a), ("test2", b), ("test3", c)], order))
      == "/test/" + "teststring" + "/" + "1" + "/" + "1.100000"
  {
    MultipleLiterals();
    MultipleFree();
    MultipleKeys();
    ResolveThreeAnyOrder("/test/", "test1", "/", "test2", "/", "test3", "", a, b, c, order);
  }

  /** Three placeholders, each filled by its own parameter whichever order
      the map is visited in, as the request tests expect. */
  lemma MultipleExample(f: Float64, order: seq<nat>)
    requires f == Finite(false, 1100000)
    requires Permutation(order, 3)
    ensures Resolve("/test/:test1/:test2/:test3",
      Reorder([("test1", VString("teststring")), ("test2", VInt(1)), ("test3", VFloat64(f))], order))
      == "/test/" + "teststring" + "/" + "1" + "/" + "1.100000"
  {
    FormatExamples();
    MultipleSteps("/test/:test1/:test2/:test3", VString("teststring"), VInt(1), VFloat64(f), order);
  }

  /** Two placeholders, each filled by its own parameter in either
      iteration order, when neither key is a prefix of the other. */
  lemma ResolveTwoAnyOrder(lead: string, k1: string, t1: string, k2: string, t2: string, a: Value, b: Value,
                           order: seq<nat>)
    requires Free(lead, ':') && Free(t1, ':') && Free(t2, ':')
    requires Free(k1, ':') && Free(k2, ':') && !(k1 <= k2) && !(k2 <= k1)
    requires PlainText(a) && PlainText(b)
    requires Permutation(order, 2)
    ensures Resolve(lead + Placeholder(k1) + t1 + Placeholder(k2) + t2, Reorder([(k1, a), (k2, b)], order))
      == lead + PathText(a) + t1 + PathText(b) + t2
  {
    var parts := [(k1, t1), (k2, t2)];
    var params := [(k1, a), (k2, b)];
    assert parts[1..] == [(k2, t2)] && params[1..] == [(k2, b)];
    var l1 := lead + Placeholder(k1) + t1;
    assert Layout(lead, parts) == Layout(l1, parts[1..]);
    assert Layout(l1, parts[1..]) == l1 + Placeholder(k2) + t2;
    var f1 := lead + PathText(a) + t1;
    assert Filled(lead, parts, params) == Filled(f1, parts[1..], params[1..]);
    assert Filled(f1, parts[1..], params[1..]) == f1 + PathText(b) + t2;
    assert Separated(lead, parts, params);
    ResolveAnyOrder(lead, parts, params, order);
  }

  /** The literal facts the two-placeholder example rests on. */
  lemma IdsLiterals()
    ensures "/test/:id1/:id2" == "/test/" + Placeholder("id1") + "/" + Placeholder("id2") + ""
    ensures Free("/test/", ':') && Free("/", ':') && Free("", ':') && Free("1", ':') && Free("2", ':')
    ensures Free("id1", ':') && Free("id2", ':')
    ensures !("id1" <= "id2") && !("id2" <= "id1")
    ensures "/test/" + "1" + "/" + "2" + "" == "/test/1/2"
  {
    assert "id1"[2] != "id2"[2];
  }

  lemma IdsSteps(path: string, a: Value, b: Value, order: seq<nat>)
    requires path == "/test/:id1/:id2"
    requires PathText(a) == "1" && PathText(b) == "2"
    requires Permutation(order, 2)
    ensures Resolve(path, Reorder([("id1", a), ("id2", b)], order)) == "/test/1/2"
  {
    IdsLiterals();
    ResolveTwoAnyOrder("/test/", "id1", "/", "id2", "", a, b, order);
  }

  /** "/test/:id1/:id2" with `id1` set to "1" and `id2` to "2" resolves to
      "/test/1/2" whichever order the map is visited in, as the client
      tests expect. */
  lemma IdsExample(order: seq<nat>)
    requires Permutation(order, 2)
    ensures Resolve("/test/:id1/:id2", Reorder([("id1", VString("1")), ("id2", VString("2"))], order)) == "/test/1/2"
  {
    IdsSteps("/test/:id1/:id2", VString("1"), VString("2"), order);
  }
}

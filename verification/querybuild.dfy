/** The loop both `parseQuery` functions share: one pass over the caller's
    query map that adds the formatted text of each supported value to a fresh
    `url.Values`. */
module QueryBuild {
  import opened Wrappers
  import opened GoMaps
  import opened Decimal
  import opened Scalars
  import opened Text
  import opened Ordering
  import opened QueryEscape
  import opened Multimap
  import opened UrlValues

  /** The text the switch adds for one value: one string for a formatted
      tag, none otherwise. */
  function TextOf(x: Value): (ts: seq<string>)
    ensures |ts| <= 1
  {
    match QueryText(x)
    case None => []
    case Some(t) => [t]
  }

  /** What the query switch adds for `key` over the whole loop. */
  function Contribution(query: Entries<Value>, key: string): seq<string> {
    match Lookup(query, key)
    case None => []
    case Some(x) => TextOf(x)
  }

  /** The first entry contributes to its own key only, and no later entry
      shares that key. */
  lemma ContributionStep(query: Entries<Value>, k: string)
    requires |query| > 0
    ensures Contribution(query, k) == if query[0].0 == k then TextOf(query[0].1) else Contribution(query[1..], k)
    ensures query[0].0 == k ==> Contribution(query[1..], k) == []
  {
    var tail: Entries<Value> := query[1..];
    if query[0].0 == k {
      assert forall i | 0 <= i < |tail| :: tail[i].0 != k by {
        forall i | 0 <= i < |tail| ensures tail[i].0 != k {
          assert tail[i] == query[i + 1];
        }
      }
    }
  }

  /** The loop body applied to each entry in iteration order. */
  function AddAll(acc: Values, query: Entries<Value>): (r: Values)
    ensures forall k :: k in r <==> k in acc || Contribution(query, k) != []
    ensures forall k :: ValuesOf(r, k) == ValuesOf(acc, k) + Contribution(query, k)
    decreases |query|
  {
    if |query| == 0 then acc
    else
      var (k, x) := query[0];
      var next := match QueryText(x) case None => acc case Some(t) => Add(acc, k, t);
      var r := AddAll(next, query[1..]);
      assert forall key :: ValuesOf(next, key) == ValuesOf(acc, key) + (if key == k then TextOf(x) else []);
      assert forall key :: key in next <==> key in acc || (key == k && TextOf(x) != []);
      assert forall key :: (key in r <==> key in acc || Contribution(query, key) != []) && ValuesOf(r, key) == ValuesOf(acc, key) + Contribution(query, key) by {
        forall key ensures (key in r <==> key in acc || Contribution(query, key) != []) && ValuesOf(r, key) == ValuesOf(acc, key) + Contribution(query, key) {
          ContributionStep(query, key);
        }
      }
      r
  }

  /** `url.Values{}` filled by the loop: exactly the keys with a formatted
      value, each holding that one text. */
  function Build(query: Entries<Value>): (v: Values)
    ensures forall k :: k in v <==> Contribution(query, k) != []
    ensures forall k :: ValuesOf(v, k) == Contribution(query, k)
  {
    AddAll(map[], query)
  }

  /** The keys of `query` whose values the switch formats. */
  function SupportedKeys(query: Entries<Value>): (ks: set<string>)
    ensures forall k :: k in ks <==> exists x :: Lookup(query, k) == Some(x) && QueryTag(x)
  {
    set i | 0 <= i < |query| && QueryTag(query[i].1) :: query[i].0
  }

  lemma BuildKeys(query: Entries<Value>)
    ensures Build(query).Keys == SupportedKeys(query)
  {
    var v := Build(query);
    forall k ensures k in v <==> k in SupportedKeys(query) {
      match Lookup(query, k)
      case None =>
      case Some(x) =>
    }
  }

  /** The text sent for a key of `query`; "" when nothing is sent. */
  function TextFor(query: Entries<Value>, key: string): string {
    var ts := Contribution(query, key);
    if |ts| == 1 then ts[0] else ""
  }

  /** The supported keys in increasing order, each with its text. */
  function Listing(query: Entries<Value>): (l: seq<(string, string)>)
    ensures |l| == |SupportedKeys(query)|
  {
    var ks := SortedSeq(SupportedKeys(query));
    seq(|ks|, j requires 0 <= j < |ks| => (ks[j], TextFor(query, ks[j])))
  }

  lemma BuildText(query: Entries<Value>, k: string)
    requires k in Build(query)
    ensures |ValuesOf(Build(query), k)| == 1 && ValuesOf(Build(query), k)[0] == TextFor(query, k)
  {
  }

  /** Two pair lists that agree at every index are equal. */
  lemma SameListing(keys: seq<string>, v: Values, query: Entries<Value>)
    requires |PairsOf(keys, v)| == |keys| == |Listing(query)|
    requires forall j | 0 <= j < |keys| :: |ValuesOf(v, keys[j])| == 1
    requires forall j | 0 <= j < |keys| :: PairsOf(keys, v)[j] == (keys[j], ValuesOf(v, keys[j])[0])
    requires keys == SortedSeq(SupportedKeys(query))
    requires forall j | 0 <= j < |keys| :: ValuesOf(v, keys[j])[0] == TextFor(query, keys[j])
    ensures PairsOf(keys, v) == Listing(query)
  {
    var f := PairsOf(keys, v);
    var l := Listing(query);
    forall j | 0 <= j < |keys| ensures f[j] == l[j] {
    }
  }

  lemma BuildFlatten(query: Entries<Value>)
    ensures Flatten(Build(query)) == Listing(query)
  {
    var v := Build(query);
    assert v.Keys == SupportedKeys(query) by {
      BuildKeys(query);
    }
    assert forall k | k in v :: |ValuesOf(v, k)| == 1 && ValuesOf(v, k)[0] == TextFor(query, k) by {
      forall k | k in v ensures |ValuesOf(v, k)| == 1 && ValuesOf(v, k)[0] == TextFor(query, k) {
        BuildText(query, k);
      }
    }
    FlattenListing(v, query);
  }

  /** A multimap holding exactly the supported keys, each with its one
      text, flattens to the listing. */
  lemma FlattenListing(v: Values, query: Entries<Value>)
    requires v.Keys == SupportedKeys(query)
    requires forall k | k in v :: |ValuesOf(v, k)| == 1 && ValuesOf(v, k)[0] == TextFor(query, k)
    ensures Flatten(v) == Listing(query)
  {
    var ks := SortedSeq(v.Keys);
    assert forall j | 0 <= j < |ks| :: ks[j] in v;
    PairsOfSingles(ks, v);
    SameListing(ks, v, query);
  }

  /** The encoded query decodes to the supported keys in increasing order,
      each with the text of its value: values of other tags are dropped and
      every supported key contributes one pair. */
  lemma BuildPairs(query: Entries<Value>)
    ensures DecodePairs(Encode(Build(query))) == Some(Listing(query))
  {
    BuildFlatten(query);
    DecodeEncode(Build(query));
  }

  /** The keys of a query, in iteration order. */
  function KeysOf(query: Entries<Value>): (ks: seq<string>)
    ensures |ks| == |query|
    ensures forall i | 0 <= i < |query| :: ks[i] == query[i].0
  {
    seq(|query|, i requires 0 <= i < |query| => query[i].0)
  }

  /** Each entry's key holds the text of its own value. */
  lemma BuildEntry(query: Entries<Value>, i: nat)
    requires i < |query|
    ensures ValuesOf(Build(query), query[i].0) == TextOf(query[i].1)
    ensures query[i].0 in Build(query) <==> QueryTag(query[i].1)
  {
    LookupEntry(query, i);
  }

  /** A key the query does not hold is not sent. */
  lemma BuildAbsent(query: Entries<Value>, k: string)
    requires forall i | 0 <= i < |query| :: query[i].0 != k
    ensures k !in Build(query)
  {
  }

  /** When every value has a formatted tag, every key is sent, with its own
      text. */
  lemma BuildAllSupported(query: Entries<Value>)
    requires forall i | 0 <= i < |query| :: QueryTag(query[i].1)
    ensures forall k :: k in Build(query) <==> k in KeysOf(query)
    ensures forall i | 0 <= i < |query| :: ValuesOf(Build(query), query[i].0) == TextOf(query[i].1)
  {
    var ks := KeysOf(query);
    forall k ensures k in Build(query) <==> k in ks {
      if k in ks {
        var i :| 0 <= i < |ks| && ks[i] == k;
        BuildEntry(query, i);
      } else {
        BuildAbsent(query, k);
      }
    }
    forall i | 0 <= i < |query| ensures ValuesOf(Build(query), query[i].0) == TextOf(query[i].1) {
      BuildEntry(query, i);
    }
  }

  /** The four test keys are in increasing order. */
  lemma TestKeysSorted()
    ensures StrictlySorted(["test1", "test2", "test3", "test4"])
  {
    var ks := ["test1", "test2", "test3", "test4"];
    assert forall i | 0 <= i < 4 :: ks[i] == "test" + [ks[i][4]];
    forall i, j | 0 <= i < j < 4 ensures Less(ks[i], ks[j]) {
      assert Less([ks[i][4]], [ks[j][4]]);
      LessAfterPrefix("test", [ks[i][4]], [ks[j][4]]);
    }
  }

  /** The query of the client's mixed-type test. */
  function MixedQuery(): Entries<Value> {
    [("test1", VString("test1")), ("test2", VInt(1)), ("test3", VFloat64(Finite(false, 1100000))), ("test4", VBool(true))]
  }

  lemma MixedTexts()
    ensures TextOf(VString("test1")) == ["test1"]
    ensures TextOf(VInt(1)) == ["1"]
    ensures TextOf(VFloat64(Finite(false, 1100000))) == ["1.100000"]
    ensures TextOf(VBool(true)) == ["true"]
  {
    FormatExamples();
  }

  /** A fully supported query listed in increasing key order is sent in
      that order, one pair per entry. */
  lemma FlattenInKeyOrder(query: Entries<Value>)
    requires forall i | 0 <= i < |query| :: QueryTag(query[i].1)
    requires StrictlySorted(KeysOf(query))
    ensures |Flatten(Build(query))| == |query|
    ensures forall i | 0 <= i < |query| :: |TextOf(query[i].1)| == 1 && Flatten(Build(query))[i] == (query[i].0, TextOf(query[i].1)[0])
  {
    var v := Build(query);
    var ks := KeysOf(query);
    assert (forall k :: k in v <==> k in ks) && forall i | 0 <= i < |query| :: ValuesOf(v, ks[i]) == TextOf(query[i].1) by {
      BuildAllSupported(query);
    }
    FlattenOrdered(v, ks, query);
  }

  /** The pairs of a multimap whose keys are the strictly increasing keys
      of a fully supported query, each holding its entry's text. */
  lemma FlattenOrdered(v: Values, ks: seq<string>, query: Entries<Value>)
    requires ks == KeysOf(query) && StrictlySorted(ks)
    requires forall i | 0 <= i < |query| :: QueryTag(query[i].1)
    requires forall k :: k in v <==> k in ks
    requires forall i | 0 <= i < |query| :: ValuesOf(v, ks[i]) == TextOf(query[i].1)
    ensures |Flatten(v)| == |query|
    ensures forall i | 0 <= i < |query| :: |TextOf(query[i].1)| == 1 && Flatten(v)[i] == (query[i].0, TextOf(query[i].1)[0])
  {
    FlattenSorted(v, ks);
  }

  lemma MixedReady()
    ensures forall i | 0 <= i < |MixedQuery()| :: QueryTag(MixedQuery()[i].1)
    ensures StrictlySorted(KeysOf(MixedQuery()))
  {
    assert KeysOf(MixedQuery()) == ["test1", "test2", "test3", "test4"];
    TestKeysSorted();
  }

  /** The pairs of the mixed query, once its texts are known. */
  lemma MixedListing(f: seq<(string, string)>, query: Entries<Value>)
    requires query == MixedQuery()
    requires |f| == |query|
    requires forall i | 0 <= i < |query| :: |TextOf(query[i].1)| == 1 && f[i] == (query[i].0, TextOf(query[i].1)[0])
    ensures f == [("test1", "test1"), ("test2", "1"), ("test3", "1.100000"), ("test4", "true")]
  {
    MixedTexts();
    assert f[0] == ("test1", "test1");
    assert f[1] == ("test2", "1");
    assert f[2] == ("test3", "1.100000");
    assert f[3] == ("test4", "true");
  }

  lemma MixedFlatten()
    ensures Flatten(Build(MixedQuery())) == [("test1", "test1"), ("test2", "1"), ("test3", "1.100000"), ("test4", "true")]
  {
    MixedReady();
    FlattenInKeyOrder(MixedQuery());
    MixedListing(Flatten(Build(MixedQuery())), MixedQuery());
  }

  /** The pieces of the expected query string, spelled out. */
  lemma MixedLiterals()
    ensures "test1" + "=" + "test1" == "test1=test1"
    ensures "test2" + "=" + "1" == "test2=1"
    ensures "test3" + "=" + "1.100000" == "test3=1.100000"
    ensures "test4" + "=" + "true" == "test4=true"
  {
  }

  lemma MixedPair1() ensures EncodePair(("test1", "test1")) == "test1=test1" { PlainPair("test1", "test1"); MixedLiterals(); }
  lemma MixedPair2() ensures EncodePair(("test2", "1")) == "test2=1" { PlainPair("test2", "1"); MixedLiterals(); }
  lemma MixedPair3() ensures EncodePair(("test3", "1.100000")) == "test3=1.100000" { PlainPair("test3", "1.100000"); MixedLiterals(); }
  lemma MixedPair4() ensures EncodePair(("test4", "true")) == "test4=true" { PlainPair("test4", "true"); MixedLiterals(); }

  lemma JoinLiteral()
    ensures "test1=test1" + "&" + "test2=1" + "&" + "test3=1.100000" + "&" + "test4=true"
         == "test1=test1&test2=1&test3=1.100000&test4=true"
  {
    JoinHalves();
    JoinWhole();
  }

  lemma JoinHalves()
    ensures "test1=test1" + "&" + "test2=1" == "test1=test1&test2=1"
    ensures "test3=1.100000" + "&" + "test4=true" == "test3=1.100000&test4=true"
  {
  }

  lemma JoinWhole()
    ensures "test1=test1&test2=1" + "&" + "test3=1.100000&test4=true"
         == "test1=test1&test2=1&test3=1.100000&test4=true"
  {
  }

  lemma MixedPairs()
    ensures EncodeAll([("test1", "test1"), ("test2", "1"), ("test3", "1.100000"), ("test4", "true")])
         == ["test1=test1", "test2=1", "test3=1.100000", "test4=true"]
  {
    EncodeAll4(("test1", "test1"), ("test2", "1"), ("test3", "1.100000"), ("test4", "true"));
    MixedPair1();
    MixedPair2();
    MixedPair3();
    MixedPair4();
  }

  lemma MixedJoin()
    ensures Join('&', ["test1=test1", "test2=1", "test3=1.100000", "test4=true"])
         == "test1=test1&test2=1&test3=1.100000&test4=true"
  {
    Join4('&', "test1=test1", "test2=1", "test3=1.100000", "test4=true");
    JoinLiteral();
  }

  /** A string, an `int`, a `float64` and a `bool` each make one pair, in key
      order, with `1.1` written with six decimals. */
  lemma EncodeMixedQuery()
    ensures Encode(Build(MixedQuery())) == "test1=test1&test2=1&test3=1.100000&test4=true"
  {
    MixedFlatten();
    MixedPairs();
    MixedJoin();
  }
}

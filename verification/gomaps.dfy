/** A Go map as this model sees it: its entries listed in one iteration order.
    Go leaves that order unspecified, so every property of an operation that
    ranges over such a map is stated for an arbitrary order. */
module GoMaps {
  import opened Wrappers

  /** No key is listed twice, as in any Go map. */
  predicate DistinctKeys<V>(m: seq<(string, V)>) {
    forall i, j | 0 <= i < j < |m| :: m[i].0 != m[j].0
  }

  type Entries<V> = m: seq<(string, V)> | DistinctKeys(m) witness []

  /** `m[key]` with the comma-ok form: `None` when the key is missing. */
  function Lookup<V>(m: Entries<V>, key: string): (r: Option<V>)
    ensures r.None? <==> forall i | 0 <= i < |m| :: m[i].0 != key
    ensures r.Some? ==> exists i | 0 <= i < |m| :: m[i] == (key, r.value)
  {
    if |m| == 0 then None
    else if m[0].0 == key then Some(m[0].1)
    else Lookup(m[1..], key)
  }

  /** Every entry is found by `Lookup` under its own key. */
  lemma {:induction false} LookupEntry<V>(m: Entries<V>, i: nat)
    requires i < |m|
    ensures Lookup(m, m[i].0) == Some(m[i].1)
  {
    if i > 0 && m[0].0 != m[i].0 {
      LookupEntry(m[1..], i - 1);
    }
  }
  /** `order` lists every index below `n` exactly once. */
  predicate Permutation(order: seq<nat>, n: nat) {
    && (forall a | 0 <= a < |order| :: order[a] < n)
    && (forall a, b | 0 <= a < b < |order| :: order[a] != order[b])
    && (forall i: nat | i < n :: i in order)
  }

  /** The entries of `m` visited in the order `order` gives: any other
      iteration order of the same map is one of these. */
  function Reorder<V>(m: seq<(string, V)>, order: seq<nat>): seq<(string, V)>
    requires forall a | 0 <= a < |order| :: order[a] < |m|
  {
    seq(|order|, a requires 0 <= a < |order| => m[order[a]])
  }

  /** Another iteration order of a map still lists each key once. */
  lemma ReorderDistinct<V>(m: Entries<V>, order: seq<nat>)
    requires Permutation(order, |m|)
    ensures DistinctKeys(Reorder(m, order))
  {
    var r := Reorder(m, order);
    forall a, b | 0 <= a < b < |r| ensures r[a].0 != r[b].0 {
      assert r[a] == m[order[a]] && r[b] == m[order[b]];
      assert order[a] != order[b];
    }
  }
}

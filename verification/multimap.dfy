/** A map from keys to lists of values, the shape Go gives both `url.Values`
    and `http.Header` (`map[string][]string`). */
module Multimap {

  /** Each key with the list of its values, in the order they were added. */
  type Values = map<string, seq<string>>

  /** The values listed under `key`; a missing key has none. */
  function ValuesOf(v: Values, key: string): seq<string> {
    if key in v then v[key] else []
  }

  /** Appends `value` to the list of `key` and changes no other key. */
  function Add(v: Values, key: string, value: string): (r: Values)
    ensures r.Keys == v.Keys + {key}
    ensures ValuesOf(r, key) == ValuesOf(v, key) + [value]
    ensures forall k | k != key :: ValuesOf(r, k) == ValuesOf(v, k)
  {
    v[key := ValuesOf(v, key) + [value]]
  }
}

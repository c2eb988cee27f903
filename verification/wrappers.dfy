/** Optional values: the model's stand-in for Go's `(value, err)` and `-1` "not found" returns. */
module Wrappers {

  datatype Option<+T> = None | Some(value: T)

  /** Looks a key up in a map, None when it is absent. */
  function Get<K, V>(m: map<K, V>, k: K): (r: Option<V>)
    ensures r.Some? <==> k in m
    ensures r.Some? ==> m[k] == r.value
  {
    if k in m then Some(m[k]) else None
  }
}

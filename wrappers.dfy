/** The optional value used for JavaScript values that may be `null` or absent. */
module Wrappers {
  datatype Option<+T> = None | Some(value: T)

  /** The value of `key` in `m`, or `None` when the key is missing (`Map.get`, `getAttribute`). */
  function Get<K, V>(m: map<K, V>, key: K): (r: Option<V>)
    ensures r.Some? <==> key in m
    ensures r.Some? ==> r.value == m[key]
  {
    if key in m then Some(m[key]) else None
  }
}

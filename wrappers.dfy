/** Optional values and results with an error case, shared by the gateway modules. */
module Wrappers {

  /** A value that may be absent: a missing store entry, a missing header. */
  datatype Option<+T> = None | Some(value: T)

  /** The outcome of an operation that either yields a value or raises an error. */
  datatype Result<+T, +E> = Success(value: T) | Failure(error: E)

  /** The entry for `k` in `m`, or None when `m` holds no entry for it. */
  function Lookup<K, V>(m: map<K, V>, k: K): (r: Option<V>)
    ensures r.Some? <==> k in m
    ensures r.Some? ==> r.value == m[k]
  {
    if k in m then Some(m[k]) else None
  }
}

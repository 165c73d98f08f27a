/** Small failure-carrying datatypes shared by the other modules. */
module Wrappers {

  /** A value that may be absent; Ruby's `nil` result of a hash lookup is `None`. */
  datatype Option<+T> = None | Some(value: T)

  /** The outcome of an operation that may raise. */
  datatype Result<+T, +E> = Ok(value: T) | Err(error: E)

  /** `m[k]` as Ruby's `Hash#[]` gives it: `None` for a missing key. */
  function Get<K, V>(m: map<K, V>, k: K): (r: Option<V>)
    ensures r.Some? <==> k in m
    ensures r.Some? ==> r.value == m[k]
  {
    if k in m then Some(m[k]) else None
  }
}

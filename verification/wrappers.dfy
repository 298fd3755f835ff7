/** Option and Result: the model's stand-ins for Ruby's `nil` and for raised exceptions. */
module Wrappers {

  /** `None` plays the part of Ruby's `nil`. */
  datatype Option<+T> = None | Some(value: T)

  /** A call that either returns a value or raises an error. */
  datatype Result<+R, +E> = Success(value: R) | Failure(error: E)

  /** Looks a key up in a map, the way Ruby's `Hash#[]` answers `nil` for a missing key. */
  function Get<K, V>(m: map<K, V>, k: K): (r: Option<V>)
    ensures r.Some? <==> k in m
    ensures r.Some? ==> r.value == m[k]
  {
    if k in m then Some(m[k]) else None
  }
}

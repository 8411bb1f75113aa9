/** The Option type standing in for C's nullable pointers and "not found" returns. */
module Wrappers {

  /** `None` plays the role of a NULL pointer or of an absent result. */
  datatype Option<+T> = None | Some(value: T) {

    /** Returns the value inside `Some`, or `default` for `None`. */
    function GetOr(default: T): T {
      match this
      case Some(v) => v
      case None => default
    }
  }

  /** Looking a key up in a map, with a miss reported as `None`. */
  function Get<K, V>(m: map<K, V>, k: K): (r: Option<V>)
    ensures r.Some? <==> k in m
    ensures r.Some? ==> r.value == m[k]
  {
    if k in m then Some(m[k]) else None
  }
}

/** Shared value types used across the containers. */
module Common {

  /** An unsigned char, the unit the byte routines read and write. */
  type byte = x: int | 0 <= x < 256

  /** A present value or the library's NULL sentinel. */
  datatype Option<T> = None | Some(value: T)

  /** A key/value entry of a separate-chaining bucket. */
  datatype Entry<K, V> = Entry(key: K, value: V)

  /** The value a map holds for `k`, or NULL. */
  function Lookup<K, V>(m: map<K, V>, k: K): Option<V>
  {
    if k in m then Some(m[k]) else None
  }

  /** A hasher meets its contract when it maps every key to an index below every positive capacity. */
  ghost predicate ValidHasher<K(!new)>(hash: (K, nat) -> nat)
  {
    forall k, m :: 0 < m ==> hash(k, m) < m
  }
}

/** Bytes, and optional values for JavaScript's null and undefined results. */
module Common {
  type Byte = bv8
  type Bytes = seq<Byte>

  datatype Option<+T> = None | Some(value: T) {
    function GetOr(default: T): T {
      if Some? then value else default
    }
  }

  function Lookup<K, V>(m: map<K, V>, k: K): Option<V> {
    if k in m then Some(m[k]) else None
  }
}

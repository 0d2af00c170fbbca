/** The two small result types every other module shares, and dictionary reads. */
module Wrappers {

  datatype Option<+T> = None | Some(value: T) {
    function GetOr(default: T): T {
      if Some? then value else default
    }
  }

  datatype Result<+T, +E> = Ok(value: T) | Err(error: E)

  /** A dictionary read that answers None for a missing key (Python's dict.get). */
  function Lookup<K, V>(m: map<K, V>, k: K): Option<V> {
    if k in m then Some(m[k]) else None
  }

  lemma SameEntries<K(!new), V>(a: map<K, V>, b: map<K, V>)
    requires forall k :: Lookup(a, k) == Lookup(b, k)
    ensures a == b
  {
    forall k
      ensures k in a <==> k in b
      ensures k in a ==> a[k] == b[k]
    {
      assert Lookup(a, k) == Lookup(b, k);
    }
  }
}

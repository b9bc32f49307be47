/** Shared wrappers. */
module Common {

  datatype Option<+T> = None | Some(value: T)

  /** The entry a dictionary holds under a key, if any. */
  function Lookup<K, V>(m: map<K, V>, k: K): Option<V> {
    if k in m then Some(m[k]) else None
  }

  function Max(a: int, b: int): int {
    if a > b then a else b
  }

  function Min(a: int, b: int): int {
    if a < b then a else b
  }

  /** A subset is no larger, and one of the same size is the whole set. */
  lemma SubsetSize<T>(a: set<T>, b: set<T>)
    requires a <= b
    ensures |a| <= |b| && (|a| == |b| ==> a == b)
  {
    assert forall x :: x in b <==> x in a + (b - a);
    assert b == a + (b - a);
    if |b - a| == 0 {
      assert b - a == {};
    }
  }
}

/** Small value types shared by the modules of the model. */
module Wrappers {

  /** An optional value (Python's `None` or a value). */
  datatype Option<+T> = None | Some(value: T)

  /** The outcome of a run that can abort: a value, or the request that failed. */
  datatype Result<+T, +E> = Ok(value: T) | Err(error: E)
}

/** Reading dictionaries whose values are lists. */
module Maps {

  /** The list stored under `k`, or the empty list when `k` is absent. */
  function Lookup<K, V>(m: map<K, seq<V>>, k: K): (r: seq<V>)
    ensures k in m ==> r == m[k]
    ensures k !in m ==> r == []
  {
    if k in m then m[k] else []
  }

  /** Every list stored in `m` has at least one element. */
  predicate NonEmptyLists<K, V>(m: map<K, seq<V>>)
  {
    forall k :: k in m ==> m[k] != []
  }

  /**
    Two maps whose stored lists are all non-empty are equal exactly when
    every key looks up the same list.
   */
  lemma LookupExtensional<K, V>(m: map<K, seq<V>>, n: map<K, seq<V>>)
    requires NonEmptyLists(m) && NonEmptyLists(n)
    ensures m == n <==> forall k :: Lookup(m, k) == Lookup(n, k)
  {
    if forall k :: Lookup(m, k) == Lookup(n, k) {
      forall k | k in m ensures k in n && m[k] == n[k] {
        assert Lookup(m, k) == Lookup(n, k);
      }
      forall k | k in n ensures k in m {
        assert Lookup(m, k) == Lookup(n, k);
      }
    }
  }
}

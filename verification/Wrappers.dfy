/** Optional values and results. */
module Wrappers {
  datatype Option<+T> = None | Some(value: T)

  datatype Result<+T, +E> = Ok(value: T) | Err(error: E)

  lemma UnionAssociative<K, V>(a: map<K, V>, b: map<K, V>, c: map<K, V>)
    ensures (a + b) + c == a + (b + c)
  {
  }

  /** Two disjoint parts of one map: what a loop over it has done and what is left. */
  ghost predicate Splits<K, V>(m: map<K, V>, done: map<K, V>, left: map<K, V>) {
    done.Keys !! left.Keys && done + left == m
  }

  /** One iteration moves one pair. */
  lemma MovePair<K, V>(m: map<K, V>, done: map<K, V>, left: map<K, V>, key: K)
    requires Splits(m, done, left) && key in left
    ensures key in m && left[key] == m[key] && key !in done
    ensures Splits(m, done[key := left[key]], left - {key})
    ensures |left - {key}| < |left|
  {
    assert (left - {key}).Keys == left.Keys - {key};
    var a := done[key := left[key]] + (left - {key});
    forall k ensures (k in a <==> k in m) && (k in a ==> a[k] == m[k]) {
      assert k in left - {key} <==> k in left && k != key;
      assert k in done[key := left[key]] <==> k in done || k == key;
    }
  }

  lemma SplitsStart<K, V>(m: map<K, V>)
    ensures Splits(m, map[], m)
  {
  }

  lemma SplitsEnd<K, V>(m: map<K, V>, done: map<K, V>, left: map<K, V>)
    requires Splits(m, done, left) && left == map[]
    ensures done == m
  {
  }
}

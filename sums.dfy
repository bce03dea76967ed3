/** Order-free sums over finite maps.

    Go iterates maps in an unspecified order; every total the program keeps is
    a sum whose value does not depend on that order.  `SumMap` picks an
    arbitrary key, and `SumMapRemove` shows that any key may be picked. */
module Sums {

  /** The sum of all values of `m`. */
  ghost function SumMap<K>(m: map<K, nat>): nat
    decreases |m|
  {
    if m == map[] then 0
    else
      var k :| k in m;
      assert (m - {k}).Keys == m.Keys - {k};
      m[k] + SumMap(m - {k})
  }

  /** Taking any key out of the map takes exactly its value out of the sum. */
  lemma SumMapRemove<K>(m: map<K, nat>, k: K)
    requires k in m
    ensures SumMap(m) == m[k] + SumMap(m - {k})
    decreases |m|
  {
    var j :| j in m && SumMap(m) == m[j] + SumMap(m - {j});
    if j != k {
      assert (m - {j}).Keys == m.Keys - {j};
      assert (m - {k}).Keys == m.Keys - {k};
      SumMapRemove(m - {j}, k);
      SumMapRemove(m - {k}, j);
      assert m - {j} - {k} == m - {k} - {j};
    }
  }

  /** Setting one entry changes the sum by the difference of old and new value. */
  lemma SumMapUpdate<K>(m: map<K, nat>, k: K, v: nat)
    ensures SumMap(m[k := v]) + (if k in m then m[k] else 0) == SumMap(m) + v
  {
    SumMapRemove(m[k := v], k);
    if k in m {
      SumMapRemove(m, k);
      assert m[k := v] - {k} == m - {k};
    } else {
      assert m[k := v] - {k} == m;
    }
  }

  /** Adding an entry under a fresh key adds its value to the sum. */
  lemma SumMapAdd<K>(m: map<K, nat>, k: K, v: nat)
    requires k !in m
    ensures SumMap(m[k := v]) == SumMap(m) + v
  {
    SumMapUpdate(m, k, v);
  }
}

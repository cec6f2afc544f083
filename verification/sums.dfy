/**
 * Sums over a Python set. The rankers add one term per query word, visiting
 * the query set in whatever order Python iterates it; `Total` adds the
 * values of a map in an unspecified order, and `TotalRemove` shows that the
 * order does not matter.
 */
module Sums {

  /** Some key of a non-empty map: the one the sum takes out first. */
  ghost function Pick<K>(m: map<K, real>): (k: K)
    requires |m| != 0
    ensures k in m
  {
    var k :| k in m; k
  }

  /** The sum of the values of `m`. */
  ghost function Total<K>(m: map<K, real>): real
    decreases |m|
  {
    if |m| == 0 then 0.0
    else
      var k := Pick(m);
      assert (m - {k}).Keys == m.Keys - {k};
      m[k] + Total(m - {k})
  }

  /** Any key may be taken out first: the sum does not depend on the order. */
  lemma {:induction false} TotalRemove<K>(m: map<K, real>, k: K)
    requires k in m
    ensures Total(m) == m[k] + Total(m - {k})
    decreases |m|
  {
    var j := Pick(m);
    if j != k {
      assert (m - {j}).Keys == m.Keys - {j};
      assert (m - {k}).Keys == m.Keys - {k};
      TotalRemove(m - {j}, k);
      TotalRemove(m - {k}, j);
      assert m - {j} - {k} == m - {k} - {j};
    }
  }

  /** Adding a term for a new key adds its value to the sum. */
  lemma TotalAdd<K>(m: map<K, real>, k: K, v: real)
    requires k !in m
    ensures Total(m[k := v]) == Total(m) + v
  {
    TotalRemove(m[k := v], k);
    assert m[k := v] - {k} == m;
  }

  /** The value of `k` in `m`, where a missing key counts as 0. */
  function ValueAt<K>(m: map<K, real>, k: K): real {
    if k in m then m[k] else 0.0
  }

  /** Taking `k` out of the sum, whether or not `m` holds it. */
  lemma TotalAt<K>(m: map<K, real>, k: K)
    ensures Total(m) == ValueAt(m, k) + Total(m - {k})
  {
    if k in m {
      TotalRemove(m, k);
    } else {
      assert m - {k} == m;
    }
  }

  /**
   * Two maps that agree everywhere except at `k`, where the value grows by
   * `d` (a missing key counting as 0), have sums that differ by `d`.
   */
  lemma TotalUpdate<K>(m: map<K, real>, m': map<K, real>, k: K, d: real)
    requires forall j :: j != k ==> (j in m' <==> j in m)
    requires forall j :: j in m && j != k ==> m'[j] == m[j]
    requires ValueAt(m', k) == ValueAt(m, k) + d
    ensures Total(m') == Total(m) + d
  {
    assert m' - {k} == m - {k} by {
      assert (m' - {k}).Keys == (m - {k}).Keys;
    }
    TotalAt(m', k);
    TotalAt(m, k);
  }

  /** The sum of a map with a single key is that key's value. */
  lemma TotalSingleton<K>(k: K, v: real)
    ensures Total(map[k := v]) == v
  {
    TotalAdd(map[], k, v);
  }

  /** A sum of non-negative values is non-negative. */
  lemma {:induction false} TotalNonNegative<K>(m: map<K, real>)
    requires forall k :: k in m ==> m[k] >= 0.0
    ensures Total(m) >= 0.0
    decreases |m|
  {
    if |m| != 0 {
      var k :| k in m;
      TotalRemove(m, k);
      assert (m - {k}).Keys == m.Keys - {k};
      TotalNonNegative(m - {k});
    }
  }
}

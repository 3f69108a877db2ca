/** Totals of a weight over the entries of a finite map, used wherever the
    source keeps a running total beside a container. */
module Sums {

  ghost function Total<K(!new), V>(m: map<K, V>, weight: (K, V) -> int): int
    decreases |m|
  {
    if m == map[] then 0
    else
      var k :| k in m;
      weight(k, m[k]) + Total(m - {k}, weight)
  }

  /** The total does not depend on the order in which entries are taken out. */
  lemma {:induction false} TotalRemove<K(!new), V>(m: map<K, V>, weight: (K, V) -> int, k: K)
    requires k in m
    ensures Total(m, weight) == weight(k, m[k]) + Total(m - {k}, weight)
    decreases |m|
  {
    var j :| j in m && Total(m, weight) == weight(j, m[j]) + Total(m - {j}, weight);
    if j != k {
      TotalRemove(m - {j}, weight, k);
      TotalRemove(m - {k}, weight, j);
      assert m - {j} - {k} == m - {k} - {j};
    }
  }

  lemma TotalAdd<K(!new), V>(m: map<K, V>, weight: (K, V) -> int, k: K, v: V)
    requires k !in m
    ensures Total(m[k := v], weight) == Total(m, weight) + weight(k, v)
  {
    TotalRemove(m[k := v], weight, k);
    assert m[k := v] - {k} == m;
  }

  lemma TotalReplace<K(!new), V>(m: map<K, V>, weight: (K, V) -> int, k: K, v: V)
    requires k in m
    ensures Total(m[k := v], weight) == Total(m, weight) - weight(k, m[k]) + weight(k, v)
  {
    TotalRemove(m[k := v], weight, k);
    TotalRemove(m, weight, k);
    assert m[k := v] - {k} == m - {k};
  }

  lemma {:induction false} TotalNonNegative<K(!new), V>(m: map<K, V>, weight: (K, V) -> int)
    requires forall k :: k in m ==> 0 <= weight(k, m[k])
    ensures 0 <= Total(m, weight)
    decreases |m|
  {
    if m != map[] {
      var k :| k in m && Total(m, weight) == weight(k, m[k]) + Total(m - {k}, weight);
      TotalNonNegative(m - {k}, weight);
    }
  }

  /** Among non-negative weights, none exceeds the total. */
  lemma {:induction false} TotalAtLeast<K(!new), V>(m: map<K, V>, weight: (K, V) -> int, k: K)
    requires k in m && forall j :: j in m ==> 0 <= weight(j, m[j])
    ensures weight(k, m[k]) <= Total(m, weight)
  {
    TotalRemove(m, weight, k);
    TotalNonNegative(m - {k}, weight);
  }

  /** A positive total has an entry of positive weight. */
  lemma {:induction false} TotalPositive<K(!new), V>(m: map<K, V>, weight: (K, V) -> int) returns (k: K)
    requires Total(m, weight) > 0
    ensures k in m && weight(k, m[k]) > 0
    decreases |m|
  {
    k :| k in m && Total(m, weight) == weight(k, m[k]) + Total(m - {k}, weight);
    if weight(k, m[k]) <= 0 {
      k := TotalPositive(m - {k}, weight);
    }
  }
}

/** Sums of a weight over the entries of a finite map. */
module Sums {
  ghost function Sum<K, V>(m: map<K, V>, weight: V -> int): int {
    if m == map[] then 0 else var k :| k in m; weight(m[k]) + Sum(m - {k}, weight)
  }

  lemma {:induction false} SumRemove<K, V>(m: map<K, V>, weight: V -> int, k: K)
    requires k in m
    ensures Sum(m, weight) == weight(m[k]) + Sum(m - {k}, weight)
    decreases m.Keys
  {
    var first :| first in m && Sum(m, weight) == weight(m[first]) + Sum(m - {first}, weight);
    if first != k {
      SumRemove(m - {first}, weight, k);
      SumRemove(m - {k}, weight, first);
      assert m - {first} - {k} == m - {k} - {first};
    }
  }

  lemma SumAdd<K, V>(m: map<K, V>, weight: V -> int, k: K, v: V)
    requires k !in m
    ensures Sum(m[k := v], weight) == Sum(m, weight) + weight(v)
  {
    SumRemove(m[k := v], weight, k);
    assert m[k := v] - {k} == m;
  }

  lemma SumUpdate<K, V>(m: map<K, V>, weight: V -> int, k: K, v: V)
    requires k in m
    ensures Sum(m[k := v], weight) == Sum(m, weight) - weight(m[k]) + weight(v)
  {
    SumRemove(m, weight, k);
    SumRemove(m[k := v], weight, k);
    assert m[k := v] - {k} == m - {k};
  }

  lemma {:induction false} SumNonNegative<K, V>(m: map<K, V>, weight: V -> int)
    requires forall k :: k in m ==> weight(m[k]) >= 0
    ensures Sum(m, weight) >= 0
    ensures forall k :: k in m ==> weight(m[k]) <= Sum(m, weight)
    decreases m.Keys
  {
    forall k | k in m
      ensures weight(m[k]) <= Sum(m, weight)
    {
      SumRemove(m, weight, k);
      SumNonNegative(m - {k}, weight);
    }
    if m != map[] {
      var k :| k in m;
      assert weight(m[k]) >= 0;
    }
  }

  /** The sum is zero when every entry weighs nothing. */
  lemma {:induction false} SumZero<K, V>(m: map<K, V>, weight: V -> int)
    requires forall k :: k in m ==> weight(m[k]) == 0
    ensures Sum(m, weight) == 0
    decreases m.Keys
  {
    if m != map[] {
      var k :| k in m;
      SumRemove(m, weight, k);
      SumZero(m - {k}, weight);
    }
  }
}

/** Sums of the integer values held in a finite map, in no particular order. */
module Totals {

  ghost function Total<K(!new)>(m: map<K, int>): int
    decreases |m|
  {
    if m == map[] then 0 else
      var k :| k in m;
      m[k] + Total(m - {k})
  }

  /** Any key may be the one that is taken out of the sum. */
  lemma {:induction false} TotalMinus<K(!new)>(m: map<K, int>, k: K)
    requires k in m
    ensures Total(m) == m[k] + Total(m - {k})
    decreases |m|
  {
    var first :| first in m && Total(m) == m[first] + Total(m - {first});
    if first != k {
      TotalMinus(m - {first}, k);
      TotalMinus(m - {k}, first);
      assert m - {first} - {k} == m - {k} - {first};
    }
  }

  lemma TotalUpdate<K(!new)>(m: map<K, int>, k: K, v: int)
    ensures Total(m[k := v]) == Total(m) - (if k in m then m[k] else 0) + v
  {
    var next := m[k := v];
    TotalMinus(next, k);
    if k in m {
      TotalMinus(m, k);
      assert next - {k} == m - {k};
    } else {
      assert next - {k} == m;
    }
  }

  lemma {:induction false} TotalNonNegative<K(!new)>(m: map<K, int>)
    requires forall k :: k in m ==> 0 <= m[k]
    ensures 0 <= Total(m)
    decreases |m|
  {
    if m != map[] {
      var k :| k in m && Total(m) == m[k] + Total(m - {k});
      TotalNonNegative(m - {k});
    }
  }

  /** A sum of positive values is nothing only when there are none. */
  lemma TotalPositive<K(!new)>(m: map<K, int>)
    requires forall k :: k in m ==> 0 < m[k]
    ensures 0 <= Total(m)
    ensures Total(m) == 0 <==> m == map[]
  {
    TotalNonNegative(m);
    if m != map[] {
      var k :| k in m;
      TotalMinus(m, k);
      TotalNonNegative(m - {k});
    }
  }
}

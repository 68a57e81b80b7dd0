/** Sums over finite maps, for the places where the program keeps a running total. */
module Totals {

  /** The sum of the values of a map. */
  ghost function Total<K(!new)>(m: map<K, nat>): nat
  {
    if m == map[] then 0
    else
      var k :| k in m;
      m[k] + Total(m - {k})
  }

  lemma {:induction false} TotalSplit<K(!new)>(m: map<K, nat>, k: K)
    requires k in m
    ensures Total(m) == m[k] + Total(m - {k})
    decreases |m|
  {
    var p :| p in m && Total(m) == m[p] + Total(m - {p});
    if p != k {
      TotalSplit(m - {p}, k);
      TotalSplit(m - {k}, p);
      assert m - {p} - {k} == m - {k} - {p};
    }
  }

  function At<K>(m: map<K, nat>, k: K): nat { if k in m then m[k] else 0 }

  /** Two maps that agree but for one key differ in their sums by what they hold there. */
  lemma TotalChange<K(!new)>(m: map<K, nat>, n: map<K, nat>, k: K)
    requires m - {k} == n - {k}
    ensures Total(n) == Total(m) - At(m, k) + At(n, k)
  {
    if k in m { TotalSplit(m, k); } else { assert m - {k} == m; }
    if k in n { TotalSplit(n, k); } else { assert n - {k} == n; }
  }
}

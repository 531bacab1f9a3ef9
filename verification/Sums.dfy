/** Totals over the values of a finite map. */
module Sums {

  ghost function SumOver<K>(m: map<K, nat>): nat
    decreases |m|
  {
    if m == map[] then 0
    else
      var k :| k in m;
      m[k] + SumOver(m - {k})
  }

  /** Any key may be taken out first. */
  lemma {:induction false} SumTakeOut<K>(m: map<K, nat>, k: K)
    requires k in m
    ensures SumOver(m) == m[k] + SumOver(m - {k})
    decreases |m|
  {
    var first :| first in m && SumOver(m) == m[first] + SumOver(m - {first});
    if first != k {
      SumTakeOut(m - {first}, k);
      assert m - {first} - {k} == m - {k} - {first};
      SumTakeOut(m - {k}, first);
    }
  }

  /** Setting one entry moves the total by the difference. */
  lemma SumSet<K>(m: map<K, nat>, k: K, v: nat)
    ensures SumOver(m[k := v]) == SumOver(m) - (if k in m then m[k] else 0) + v
  {
    SumTakeOut(m[k := v], k);
    assert m[k := v] - {k} == m - {k};
    if k in m {
      SumTakeOut(m, k);
    } else {
      assert m - {k} == m;
    }
  }

  lemma {:induction false} SumBound<K>(m: map<K, nat>, bound: nat)
    requires forall k :: k in m ==> m[k] <= bound
    ensures SumOver(m) <= |m| * bound
    decreases |m|
  {
    if m != map[] {
      var k :| k in m;
      SumTakeOut(m, k);
      SumBound(m - {k}, bound);
      assert |m - {k}| == |m| - 1 by {
        assert (m - {k}).Keys == m.Keys - {k};
        assert |m| == |m.Keys|;
        assert |m - {k}| == |(m - {k}).Keys|;
      }
      assert |m| * bound == (|m| - 1) * bound + bound;
    }
  }
}

/** Sums of the values of a map. */
module Sums {
  /** The sum of the values of a map over a set of its keys. */
  ghost function SumOver<T(!new)>(m: map<T, int>, keys: set<T>): int
    requires keys <= m.Keys
  {
    if keys == {} then 0 else var k :| k in keys; m[k] + SumOver(m, keys - {k})
  }

  lemma {:induction false} SumOverPick<T(!new)>(m: map<T, int>, keys: set<T>, k: T)
    requires keys <= m.Keys && k in keys
    ensures SumOver(m, keys) == m[k] + SumOver(m, keys - {k})
  {
    var j :| j in keys && SumOver(m, keys) == m[j] + SumOver(m, keys - {j});
    if j != k {
      SumOverPick(m, keys - {j}, k);
      SumOverPick(m, keys - {k}, j);
      assert keys - {j} - {k} == keys - {k} - {j};
    }
  }

  lemma {:induction false} SumOverSame<T(!new)>(m: map<T, int>, m': map<T, int>, keys: set<T>)
    requires keys <= m.Keys && keys <= m'.Keys && forall k :: k in keys ==> m[k] == m'[k]
    ensures SumOver(m, keys) == SumOver(m', keys)
  {
    if keys != {} {
      var k :| k in keys && SumOver(m, keys) == m[k] + SumOver(m, keys - {k});
      SumOverSame(m, m', keys - {k});
      SumOverPick(m', keys, k);
    }
  }

  /** The map with `d` more for a key. */
  function Added<T>(m: map<T, int>, k: T, d: int): map<T, int> {
    m[k := (if k in m then m[k] else 0) + d]
  }

  lemma SumOverUpdate<T(!new)>(m: map<T, int>, k: T, d: int)
    ensures SumOver(Added(m, k, d), Added(m, k, d).Keys) == SumOver(m, m.Keys) + d
  {
    var m' := Added(m, k, d);
    SumOverPick(m', m'.Keys, k);
    SumOverSame(m, m', m.Keys - {k});
    assert m'.Keys - {k} == m.Keys - {k};
    if k in m {
      SumOverPick(m, m.Keys, k);
    } else {
      assert m.Keys - {k} == m.Keys;
    }
  }

  lemma {:induction false} SumIsPositive<T(!new)>(m: map<T, int>, keys: set<T>)
    requires keys <= m.Keys && forall k :: k in keys ==> m[k] >= 0
    ensures SumOver(m, keys) >= 0
  {
    if keys != {} {
      var k :| k in keys && SumOver(m, keys) == m[k] + SumOver(m, keys - {k});
      SumIsPositive(m, keys - {k});
    }
  }
}

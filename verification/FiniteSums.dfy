/** Sums over the values of finite maps. */
module FiniteSums {
  ghost function SumOver<K>(m: map<K, int>, keys: set<K>): int
    requires keys <= m.Keys
    decreases |keys|
  {
    if keys == {} then 0
    else
      var k :| k in keys;
      m[k] + SumOver(m, keys - {k})
  }

  ghost function Total<K>(m: map<K, int>): int {
    SumOver(m, m.Keys)
  }

  lemma {:induction false} SumOverTakes<K>(m: map<K, int>, keys: set<K>, k: K)
    requires keys <= m.Keys && k in keys
    ensures SumOver(m, keys) == m[k] + SumOver(m, keys - {k})
    decreases |keys|
  {
    var j :| j in keys && SumOver(m, keys) == m[j] + SumOver(m, keys - {j});
    if j != k {
      SumOverTakes(m, keys - {j}, k);
      SumOverTakes(m, keys - {k}, j);
      assert keys - {j} - {k} == keys - {k} - {j};
    }
  }

  lemma {:induction false} SumOverAgrees<K>(m: map<K, int>, n: map<K, int>, keys: set<K>)
    requires keys <= m.Keys && keys <= n.Keys && forall k :: k in keys ==> m[k] == n[k]
    ensures SumOver(m, keys) == SumOver(n, keys)
    decreases |keys|
  {
    if keys != {} {
      var k :| k in keys;
      SumOverTakes(m, keys, k);
      SumOverTakes(n, keys, k);
      SumOverAgrees(m, n, keys - {k});
    }
  }

  function ValueAt<K>(m: map<K, int>, k: K): int {
    if k in m then m[k] else 0
  }

  lemma TotalUpdate<K>(m: map<K, int>, k: K, v: int)
    ensures Total(m[k := v]) == Total(m) - ValueAt(m, k) + v
  {
    var n := m[k := v];
    SumOverTakes(n, n.Keys, k);
    SumOverAgrees(m, n, n.Keys - {k});
    if k in m {
      SumOverTakes(m, m.Keys, k);
      assert n.Keys == m.Keys;
    } else {
      assert n.Keys - {k} == m.Keys;
    }
  }

  lemma TotalRemove<K>(m: map<K, int>, k: K)
    ensures Total(m - {k}) == Total(m) - ValueAt(m, k)
  {
    var n := m - {k};
    if k in m {
      SumOverTakes(m, m.Keys, k);
      assert n.Keys == m.Keys - {k};
      SumOverAgrees(m, n, n.Keys);
    } else {
      assert n == m;
    }
  }

  lemma {:induction false} SumOverNonNegative<K>(m: map<K, int>, keys: set<K>)
    requires keys <= m.Keys && forall k :: k in keys ==> m[k] >= 0
    ensures SumOver(m, keys) >= 0
    decreases |keys|
  {
    if keys != {} {
      var k :| k in keys;
      SumOverTakes(m, keys, k);
      SumOverNonNegative(m, keys - {k});
    }
  }

  /** With no negative value, no value exceeds the total. */
  lemma ValueWithinTotal<K>(m: map<K, int>, k: K)
    requires forall j :: j in m ==> m[j] >= 0
    ensures 0 <= ValueAt(m, k) <= Total(m)
  {
    SumOverNonNegative(m, m.Keys);
    if k in m {
      SumOverTakes(m, m.Keys, k);
      SumOverNonNegative(m, m.Keys - {k});
    }
  }

  lemma {:induction false} SumOverZeros<K>(m: map<K, int>, keys: set<K>)
    requires keys <= m.Keys && forall k :: k in keys ==> m[k] == 0
    ensures SumOver(m, keys) == 0
    decreases |keys|
  {
    if keys != {} {
      var k :| k in keys;
      SumOverTakes(m, keys, k);
      SumOverZeros(m, keys - {k});
    }
  }

  lemma {:induction false} SumOverSplits<K>(m: map<K, int>, keys: set<K>, part: set<K>)
    requires part <= keys <= m.Keys
    ensures SumOver(m, keys) == SumOver(m, part) + SumOver(m, keys - part)
    decreases |part|
  {
    if part == {} {
      assert keys - part == keys;
    } else {
      var k :| k in part;
      SumOverTakes(m, keys, k);
      SumOverTakes(m, part, k);
      SumOverSplits(m, keys - {k}, part - {k});
      assert keys - {k} - (part - {k}) == keys - part;
    }
  }

  /** Keys whose value is zero make no difference to the total. */
  lemma TotalIgnoresZeros<K>(m: map<K, int>, n: map<K, int>)
    requires m.Keys <= n.Keys && forall k :: k in n ==> n[k] == ValueAt(m, k)
    ensures Total(n) == Total(m)
  {
    SumOverSplits(n, n.Keys, m.Keys);
    SumOverZeros(n, n.Keys - m.Keys);
    SumOverAgrees(m, n, m.Keys);
  }
}

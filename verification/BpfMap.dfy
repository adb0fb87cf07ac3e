/** BPF hash maps: a finite map that silently refuses a new key when it is full. */
module BpfMap {

  function Insert<K, V>(m: map<K, V>, capacity: nat, k: K, v: V): map<K, V>
  {
    if k in m || |m| < capacity then m[k := v] else m
  }

  function Remove<K, V>(m: map<K, V>, k: K): map<K, V>
  {
    m - {k}
  }

  function Get<K, V>(m: map<K, V>, k: K, default: V): V
  {
    if k in m then m[k] else default
  }

  lemma CardinalityBelow<K>(a: set<K>, b: set<K>)
    requires a <= b
    ensures |a| <= |b|
  {
    assert b == a + (b - a);
  }

  /** A map whose keys stay within a set no larger than its capacity never refuses one of them. */
  lemma InsertHasRoom<K, V>(m: map<K, V>, capacity: nat, k: K, v: V, keys: set<K>)
    requires m.Keys <= keys && k in keys && |keys| <= capacity
    ensures Insert(m, capacity, k, v) == m[k := v]
  {
    if k !in m {
      CardinalityBelow(m.Keys, keys - {k});
      assert |m| == |m.Keys|;
    }
  }

  /** The values of a map, added up in no particular order. */
  ghost function Total<K>(m: map<K, nat>): nat
    decreases |m|
  {
    if m == map[] then 0
    else
      var k :| k in m;
      m[k] + Total(m - {k})
  }

  lemma {:induction false} TotalWithout<K>(m: map<K, nat>, k: K)
    requires k in m
    ensures Total(m) == m[k] + Total(m - {k})
    decreases |m|
  {
    var q :| q in m && Total(m) == m[q] + Total(m - {q});
    if q != k {
      TotalWithout(m - {q}, k);
      TotalWithout(m - {k}, q);
      assert m - {q} - {k} == m - {k} - {q};
    }
  }
}

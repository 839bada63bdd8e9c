/** What things cost in bytes, and sums of costs over finite maps. The sizes are
    those of libstdc++ on a 64-bit machine; no proof depends on their values
    beyond the memory ceiling being far below INT_MAX. */
module Costs {

  const PTR_SIZE: nat := 8
  const STRING_OBJECT: nat := 32
  const NODE_OBJECT: nat := 160

  const MAP_NODE_OVERHEAD: nat := 8 * PTR_SIZE
  const HASH_ENTRY_OVERHEAD_VECTOR: nat := 2 * STRING_OBJECT
  const HASH_ENTRY_OVERHEAD_MAP: nat := 2 * STRING_OBJECT + MAP_NODE_OVERHEAD

  const LRU_MAX_MEMORY: nat := 64 * 1024 * 1024

  /** std::string::capacity() of a freshly copied string. */
  function Cap(s: string): (c: nat)
    ensures |s| <= c
  {
    if |s| <= 15 then 15 else |s|
  }

  ghost function Sum(m: map<string, nat>): nat
    decreases |m|
  {
    if m == map[] then 0
    else
      var k :| k in m;
      m[k] + Sum(m - {k})
  }

  lemma {:induction false} SumRemove(m: map<string, nat>, k: string)
    requires k in m
    ensures Sum(m) == m[k] + Sum(m - {k})
    decreases |m|
  {
    var p :| p in m && Sum(m) == m[p] + Sum(m - {p});
    if p != k {
      SumRemove(m - {p}, k);
      SumRemove(m - {k}, p);
      assert m - {p} - {k} == m - {k} - {p};
    }
  }

  lemma SumPut(m: map<string, nat>, k: string, c: nat)
    ensures Sum(m[k := c]) == Sum(m - {k}) + c
    ensures k in m ==> Sum(m[k := c]) + m[k] == Sum(m) + c
    ensures k !in m ==> Sum(m[k := c]) == Sum(m) + c
  {
    SumRemove(m[k := c], k);
    assert m[k := c] - {k} == m - {k};
    if k in m {
      SumRemove(m, k);
    } else {
      assert m - {k} == m;
    }
  }

  lemma {:induction false} SumMonotone(a: map<string, nat>, b: map<string, nat>)
    requires a.Keys <= b.Keys
    requires forall k :: k in a ==> a[k] <= b[k]
    ensures Sum(a) <= Sum(b)
    decreases |a|
  {
    if a != map[] {
      var k :| k in a;
      SumRemove(a, k);
      SumRemove(b, k);
      SumMonotone(a - {k}, b - {k});
    }
  }

  lemma SumBounds(m: map<string, nat>, k: string)
    requires k in m
    ensures m[k] <= Sum(m)
  {
    SumRemove(m, k);
  }

  lemma SizeRemove<T>(m: map<string, T>, k: string)
    requires k in m
    ensures |m - {k}| == |m| - 1
  {
    assert (m - {k}).Keys == m.Keys - {k};
  }

  lemma {:induction false} SumShift(a: map<string, nat>, b: map<string, nat>, c: nat, n: nat)
    requires a.Keys == b.Keys && n == |a|
    requires forall k :: k in a ==> b[k] == a[k] + c
    ensures Sum(b) == Sum(a) + n * c
    decreases n
  {
    if n == 0 {
      assert b == map[];
    } else {
      var k :| k in a;
      SumRemove(a, k);
      SumRemove(b, k);
      SizeRemove(a, k);
      SumShift(a - {k}, b - {k}, c, n - 1);
      Distribute(n, c);
    }
  }

  lemma Distribute(n: nat, c: nat)
    requires n > 0
    ensures n * c == (n - 1) * c + c
  {}

  /** Every entry costs at least one byte, so there are no more entries than bytes. */
  lemma {:induction false} SumCounts(m: map<string, nat>)
    requires forall k :: k in m ==> m[k] >= 1
    ensures |m| <= Sum(m)
    decreases |m|
  {
    if m != map[] {
      var k :| k in m;
      SumRemove(m, k);
      SumCounts(m - {k});
      SizeRemove(m, k);
    }
  }
}

/** The store as a value: what every key holds and the recency order of the
    keys, least recent first; and eviction on it. */
module Keyspace {
  import opened Text
  import opened Costs
  import opened Hash

  datatype Value =
    | StringValue(text: string, expiry: int)
    | ListValue(items: seq<string>)
    | HashValue(hash: HashRep)
    | SetValue(elements: set<string>)

  type Values = map<string, Value>

  datatype Db = Db(order: seq<string>, vals: Values)

  const EMPTY := Db([], map[])

  // ---------- memory ----------

  function ItemMem(s: string): nat { Cap(s) + STRING_OBJECT + PTR_SIZE }

  function ListMem(items: seq<string>): nat {
    if items == [] then 0 else ItemMem(items[0]) + ListMem(items[1..])
  }

  function ElementMem(s: string): nat { Cap(s) + STRING_OBJECT + 8 * PTR_SIZE }

  ghost function ElementCosts(s: set<string>): map<string, nat> {
    map e | e in s :: ElementMem(e)
  }

  ghost function SetMem(s: set<string>): nat { Sum(ElementCosts(s)) }

  /** What a value costs, recounted from scratch. */
  ghost function ValueMem(v: Value): nat {
    match v
    case StringValue(s, _) => STRING_OBJECT + Cap(s)
    case ListValue(items) => ListMem(items)
    case HashValue(h) => HashMem(h)
    case SetValue(s) => SetMem(s)
  }

  ghost function NodeMem(key: string, v: Value): nat {
    NODE_OBJECT + Cap(key) + ValueMem(v)
  }

  ghost function NodeCosts(vals: Values): map<string, nat> {
    map k | k in vals :: NodeMem(k, vals[k])
  }

  ghost function Total(vals: Values): nat { Sum(NodeCosts(vals)) }

  ghost predicate Fits(vals: Values) { Total(vals) <= LRU_MAX_MEMORY }

  lemma TotalPut(vals: Values, k: string, v: Value)
    ensures k in vals ==> Total(vals[k := v]) + NodeMem(k, vals[k]) == Total(vals) + NodeMem(k, v)
    ensures k !in vals ==> Total(vals[k := v]) == Total(vals) + NodeMem(k, v)
  {
    SumPut(NodeCosts(vals), k, NodeMem(k, v));
    assert NodeCosts(vals[k := v]) == NodeCosts(vals)[k := NodeMem(k, v)];
  }

  lemma TotalDrop(vals: Values, k: string)
    requires k in vals
    ensures Total(vals) == NodeMem(k, vals[k]) + Total(vals - {k})
  {
    SumRemove(NodeCosts(vals), k);
    assert NodeCosts(vals - {k}) == NodeCosts(vals) - {k};
  }

  lemma TotalEmpty()
    ensures Total(map[]) == 0
  {
    assert NodeCosts(map[]) == map[];
  }

  lemma TotalMonotone(a: Values, b: Values)
    requires a.Keys <= b.Keys
    requires forall k :: k in a ==> ValueMem(a[k]) <= ValueMem(b[k])
    ensures Total(a) <= Total(b)
  {
    SumMonotone(NodeCosts(a), NodeCosts(b));
  }

  lemma {:induction false} ListMemConcat(a: seq<string>, b: seq<string>)
    ensures ListMem(a + b) == ListMem(a) + ListMem(b)
  {
    if a == [] {
      assert a + b == b;
    } else {
      ListMemConcat(a[1..], b);
      assert (a + b)[1..] == a[1..] + b;
    }
  }

  lemma SetMemAdd(s: set<string>, e: string)
    requires e !in s
    ensures SetMem(s + {e}) == SetMem(s) + ElementMem(e)
  {
    SumPut(ElementCosts(s), e, ElementMem(e));
    assert ElementCosts(s + {e}) == ElementCosts(s)[e := ElementMem(e)];
  }

  lemma SetMemEmpty()
    ensures SetMem({}) == 0
  {
    assert ElementCosts({}) == map[];
  }

  // ---------- recency order ----------

  function Without(order: seq<string>, k: string): seq<string> {
    if order == [] then []
    else if order[0] == k then Without(order[1..], k)
    else [order[0]] + Without(order[1..], k)
  }

  /** Move a key to the most recent end. */
  function Touch(db: Db, k: string): Db {
    if k in db.vals then db.(order := Without(db.order, k) + [k]) else db
  }

  /** Replace the value of a key where it stands in the order. */
  function Write(db: Db, k: string, v: Value): Db {
    db.(vals := db.vals[k := v])
  }

  /** A new key enters as the most recent one. */
  function Append(db: Db, k: string, v: Value): Db {
    Db(db.order + [k], db.vals[k := v])
  }

  function Remove(db: Db, k: string): Db {
    Db(Without(db.order, k), db.vals - {k})
  }

  predicate Newest(db: Db, k: string) {
    db.order != [] && db.order[|db.order| - 1] == k
  }

  ghost predicate Consistent(db: Db) {
    && Distinct(db.order)
    && (forall k :: k in db.order <==> k in db.vals)
    && (forall k :: k in db.vals && db.vals[k].HashValue? ==> WellFormed(db.vals[k].hash))
  }

  lemma {:induction false} WithoutIs(order: seq<string>, k: string)
    requires Distinct(order)
    ensures forall x :: x in Without(order, k) <==> x in order && x != k
    ensures Distinct(Without(order, k))
    ensures k !in order ==> Without(order, k) == order
  {
    if order != [] {
      WithoutIs(order[1..], k);
      assert forall x :: x in order <==> x == order[0] || x in order[1..];
      assert order[0] !in order[1..];
    }
  }

  lemma {:induction false} WithoutAt(order: seq<string>, i: nat)
    requires Distinct(order) && i < |order|
    ensures Without(order, order[i]) == order[..i] + order[i + 1..]
  {
    WithoutIs(order[1..], order[0]);
    if i > 0 {
      WithoutAt(order[1..], i - 1);
    }
  }

  lemma TouchConsistent(db: Db, k: string)
    requires Consistent(db)
    ensures Consistent(Touch(db, k)) && Touch(db, k).vals == db.vals
  {
    WithoutIs(db.order, k);
  }

  lemma RemoveConsistent(db: Db, k: string)
    requires Consistent(db)
    ensures Consistent(Remove(db, k))
    ensures Total(Remove(db, k).vals) <= Total(db.vals)
  {
    WithoutIs(db.order, k);
    if k in db.vals { TotalDrop(db.vals, k); } else { assert db.vals - {k} == db.vals; }
  }

  // ---------- eviction ----------

  function DropOldest(db: Db): Db
    requires db.order != []
  {
    Db(db.order[1..], db.vals - {db.order[0]})
  }

  /** The evict-until-safe loop. */
  ghost function EvictToFit(db: Db): Db
    decreases |db.order|
  {
    if Total(db.vals) > LRU_MAX_MEMORY && db.order != [] then EvictToFit(DropOldest(db)) else db
  }

  /** Bytes of a run of keys. */
  ghost function SpanMem(order: seq<string>, vals: Values): nat
    requires forall k :: k in order ==> k in vals
  {
    if order == [] then 0
    else NodeMem(order[0], vals[order[0]]) + SpanMem(order[1..], vals)
  }

  lemma {:induction false} SpanFrame(order: seq<string>, a: Values, b: Values)
    requires forall k :: k in order ==> k in a && k in b && a[k] == b[k]
    ensures SpanMem(order, a) == SpanMem(order, b)
  {
    if order != [] {
      SpanFrame(order[1..], a, b);
    }
  }

  lemma DropOldestConsistent(db: Db)
    requires Consistent(db) && db.order != []
    ensures Consistent(DropOldest(db))
  {
    var k := db.order[0];
    assert forall x :: x in db.order <==> x == k || x in db.order[1..];
    assert k !in db.order[1..];
  }

  lemma {:induction false} SpanIsTotal(db: Db)
    requires Consistent(db)
    ensures SpanMem(db.order, db.vals) == Total(db.vals)
    decreases |db.order|
  {
    if db.order == [] {
      assert db.vals == map[] by { assert forall k :: k !in db.vals; }
      TotalEmpty();
    } else {
      DropOldestConsistent(db);
      SpanIsTotal(DropOldest(db));
      TotalDrop(db.vals, db.order[0]);
      SpanFrame(db.order[1..], db.vals, DropOldest(db).vals);
    }
  }

  lemma {:induction false} SpanSuffix(order: seq<string>, vals: Values, i: nat)
    requires forall k :: k in order ==> k in vals
    requires i <= |order|
    ensures SpanMem(order[i..], vals) <= SpanMem(order, vals)
  {
    if i == 0 {
      assert order[0..] == order;
    } else {
      SpanSuffix(order[1..], vals, i - 1);
      assert order[i..] == order[1..][i - 1..];
    }
  }

  lemma DropOldestSpan(db: Db, i: nat)
    requires Consistent(db) && i < |db.order|
    ensures Consistent(DropOldest(db)) && db.order[i + 1..] == DropOldest(db).order[i..]
    ensures SpanMem(db.order[i + 1..], db.vals) == SpanMem(DropOldest(db).order[i..], DropOldest(db).vals)
  {
    DropOldestConsistent(db);
    assert forall x :: x in db.order[i + 1..] ==> x in DropOldest(db).order;
    SpanFrame(db.order[i + 1..], db.vals, DropOldest(db).vals);
  }

  /** How many keys the loop evicts. */
  ghost function Evicted(db: Db): nat
    decreases |db.order|
  {
    if Total(db.vals) > LRU_MAX_MEMORY && db.order != [] then 1 + Evicted(DropOldest(db)) else 0
  }

  /** Eviction drops a prefix of the recency order and touches nothing else;
      the loop never stops above the limit, so its test for an empty list is
      never what ends it. */
  lemma {:induction false} EvictionDropsPrefix(db: Db)
    requires Consistent(db)
    ensures Evicted(db) <= |db.order|
    ensures EvictToFit(db).order == db.order[Evicted(db)..]
    ensures forall k :: k in EvictToFit(db).vals ==> k in db.vals && EvictToFit(db).vals[k] == db.vals[k]
    ensures Consistent(EvictToFit(db)) && Fits(EvictToFit(db).vals)
    decreases |db.order|
  {
    hide Consistent, Total;
    if db.order == [] {
      EmptyTotal(db);
    } else if Total(db.vals) > LRU_MAX_MEMORY {
      DropOldestConsistent(db);
      EvictionDropsPrefix(DropOldest(db));
      assert db.order[Evicted(db)..] == DropOldest(db).order[Evicted(db) - 1..];
    }
  }

  lemma EmptyTotal(db: Db)
    requires Consistent(db) && db.order == []
    ensures Total(db.vals) == 0
  {
    SpanIsTotal(db);
  }

  /** ... and no shorter prefix would have been enough: what is left is the
      longest most-recent suffix that fits the limit. */
  lemma {:induction false} EvictionIsMinimal(db: Db, i: nat)
    requires Consistent(db) && i <= |db.order|
    ensures SpanMem(db.order[i..], db.vals) <= LRU_MAX_MEMORY <==> Evicted(db) <= i
    decreases |db.order|, 1
  {
    SpanIsTotal(db);
    if Total(db.vals) <= LRU_MAX_MEMORY {
      SpanSuffix(db.order, db.vals, i);
    } else if i == 0 {
      assert db.order[0..] == db.order;
    } else {
      MinimalStep(db, i);
    }
  }

  lemma {:induction false} MinimalStep(db: Db, i: nat)
    requires Consistent(db) && 0 < i <= |db.order| && Total(db.vals) > LRU_MAX_MEMORY
    ensures SpanMem(db.order[i..], db.vals) <= LRU_MAX_MEMORY <==> Evicted(db) <= i
    decreases |db.order|, 0
  {
    var rest := DropOldest(db);
    DropOldestSpan(db, i - 1);
    EvictionIsMinimal(rest, i - 1);
    assert Evicted(db) == 1 + Evicted(rest);
  }

  /** A key survives eviction exactly when the bytes from it up to the most
      recent key fit the limit. */
  lemma SurvivesIff(db: Db, i: nat)
    requires Consistent(db) && i < |db.order|
    ensures db.order[i] in EvictToFit(db).vals <==> SpanMem(db.order[i..], db.vals) <= LRU_MAX_MEMORY
  {
    EvictionDropsPrefix(db);
    EvictionIsMinimal(db, i);
    var n := Evicted(db);
    if i >= n {
      assert EvictToFit(db).order[i - n] == db.order[i];
    }
  }

  lemma AppendConsistent(db: Db, k: string, v: Value)
    requires Consistent(db) && k !in db.vals
    requires v.HashValue? ==> WellFormed(v.hash)
    ensures Consistent(Append(db, k, v))
  {
  }

  lemma WriteConsistent(db: Db, k: string, v: Value)
    requires Consistent(db) && k in db.vals
    requires v.HashValue? ==> WellFormed(v.hash)
    ensures Consistent(Write(db, k, v))
  {
  }

  /** A new key survives its own arrival exactly when it fits on its own. */
  lemma NewKeySurvivesIff(db: Db, k: string, v: Value)
    requires Consistent(db) && k !in db.vals
    requires v.HashValue? ==> WellFormed(v.hash)
    ensures k in EvictToFit(Append(db, k, v)).vals <==> NodeMem(k, v) <= LRU_MAX_MEMORY
  {
    var grown := Append(db, k, v);
    AppendConsistent(db, k, v);
    SurvivesIff(grown, |db.order|);
    var last := grown.order[|db.order|..];
    assert last == [k];
    assert last[1..] == [];
    assert SpanMem(last, grown.vals) == NodeMem(k, v) + SpanMem([], grown.vals);
  }
}

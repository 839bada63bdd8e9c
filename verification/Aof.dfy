/** The log rewrite: a program that rebuilds the store, and the proof that
    running it does. */
module Aof {
  import opened Text
  import opened Costs
  import opened Hash
  import opened Keyspace
  import opened Commands
  import opened Resp

  /** The names append_to_aof lets through, in the order of its table. */
  const LOGGED: seq<string> :=
    ["DEL", "HDEL", "HSET", "LPOP", "LPUSH", "RPOP", "RPUSH", "SADD", "SDEL", "SET"]

  predicate IsLogged(name: string) { name in LOGGED }

  // ---------- the program a rewrite writes ----------

  /** The pairs of a hash in iteration order. */
  function HashPairs(h: HashRep): seq<Pair> {
    match h
    case VectorRep(entries) => entries
    case MapRep(m) => SortedPairs(m, Sorted(m.Keys))
  }

  function SortedPairs(m: map<string, string>, fields: seq<string>): seq<Pair> {
    if fields == [] then []
    else (if fields[0] in m then [(fields[0], m[fields[0]])] else []) + SortedPairs(m, fields[1..])
  }

  function Flat(pairs: seq<Pair>): seq<string> {
    if pairs == [] then [] else [pairs[0].0, pairs[0].1] + Flat(pairs[1..])
  }

  predicate ExpiredForRewrite(v: Value, now: int) {
    v.StringValue? && v.expiry > 0 && now > v.expiry
  }

  predicate EmptyCollection(v: Value) {
    match v
    case StringValue(_, _) => false
    case ListValue(items) => items == []
    case HashValue(h) => HashPairs(h) == []
    case SetValue(s) => s == {}
  }

  predicate Kept(v: Value, now: int) {
    !ExpiredForRewrite(v, now) && !EmptyCollection(v)
  }

  function DumpValue(k: string, v: Value): Command {
    match v
    case StringValue(s, e) => ["SET", k, s] + if e > 0 then ["PXAT", ToString(e)] else []
    case ListValue(items) => ["RPUSH", k] + items
    case HashValue(h) => ["HSET", k] + Flat(HashPairs(h))
    case SetValue(s) => ["SADD", k] + Sorted(s)
  }

  function DumpKey(k: string, vals: Values, now: int): seq<Command> {
    if k in vals && Kept(vals[k], now) then [DumpValue(k, vals[k])] else []
  }

  /** One command for every key that is kept, least recent first. */
  function Dump(keys: seq<string>, vals: Values, now: int): seq<Command> {
    if keys == [] then []
    else Dump(keys[..|keys| - 1], vals, now) + DumpKey(keys[|keys| - 1], vals, now)
  }

  // ---------- what the program rebuilds ----------

  /** A value as it comes back: a non-positive expiry is not written, and a hash
      is built up afresh from the vector form. */
  function Reload(v: Value): Value {
    match v
    case StringValue(s, e) => StringValue(s, if e > 0 then e else 0)
    case HashValue(h) => HashValue(WriteAll(EMPTY_HASH, HashPairs(h)))
    case _ => v
  }

  function KeptKeys(keys: seq<string>, vals: Values, now: int): seq<string> {
    if keys == [] then []
    else
      var last := keys[|keys| - 1];
      KeptKeys(keys[..|keys| - 1], vals, now) + if last in vals && Kept(vals[last], now) then [last] else []
  }

  function ReloadedValues(keys: seq<string>, vals: Values, now: int): Values {
    map k | k in keys && k in vals && Kept(vals[k], now) :: Reload(vals[k])
  }

  /** The kept keys among the first n, in the same recency order, reloaded. */
  function RestoredUpTo(db: Db, now: int, n: nat): Db
    requires n <= |db.order|
  {
    Db(KeptKeys(db.order[..n], db.vals, now), ReloadedValues(db.order[..n], db.vals, now))
  }

  function Restored(db: Db, now: int): Db {
    RestoredUpTo(db, now, |db.order|)
  }

  // ---------- values come back ----------

  lemma {:induction false} PairsOfFlat(pairs: seq<Pair>)
    ensures Pairs(Flat(pairs)) == pairs && |Flat(pairs)| == 2 * |pairs|
  {
    if pairs != [] {
      PairsOfFlat(pairs[1..]);
      assert Flat(pairs)[2..] == Flat(pairs[1..]);
    }
  }

  /** What a list of field writes does to a plain map. */
  function Overlay(m: map<string, string>, pairs: seq<Pair>): map<string, string>
    decreases |pairs|
  {
    if pairs == [] then m else Overlay(m[pairs[0].0 := pairs[0].1], pairs[1..])
  }

  lemma {:induction false} WriteAllFields(h: HashRep, pairs: seq<Pair>)
    requires WellFormed(h)
    ensures Fields(WriteAll(h, pairs)) == Overlay(Fields(h), pairs)
    ensures WellFormed(WriteAll(h, pairs))
    decreases |pairs|
  {
    if pairs != [] {
      SetRefines(h, pairs[0].0, pairs[0].1);
      WriteAllFields(SetField(h, pairs[0].0, pairs[0].1), pairs[1..]);
    }
  }

  lemma {:induction false} OverlayVector(a: seq<Pair>, b: seq<Pair>)
    ensures Overlay(FromVector(a), b) == FromVector(a + b)
    decreases |b|
  {
    if b == [] {
      assert a + b == a;
    } else {
      var c := a + [b[0]];
      assert c[..|c| - 1] == a;
      OverlayVector(c, b[1..]);
      assert c + b[1..] == a + b;
    }
  }

  lemma {:induction false} SortedPairsAre(m: map<string, string>, fields: seq<string>)
    requires Distinct(fields) && forall f :: f in fields ==> f in m
    ensures |SortedPairs(m, fields)| == |fields|
    ensures forall i :: 0 <= i < |fields| ==> SortedPairs(m, fields)[i] == (fields[i], m[fields[i]])
  {
    if fields != [] {
      SortedPairsAre(m, fields[1..]);
    }
  }

  /** The dumped pairs have unique fields and their map is the hash. */
  lemma HashPairsFields(h: HashRep)
    requires WellFormed(h)
    ensures Unique(HashPairs(h)) && FromVector(HashPairs(h)) == Fields(h)
    ensures |HashPairs(h)| == |Fields(h)|
  {
    hide FromVector, Sorted, SortedPairs;
    match h
    case VectorRep(entries) => VectorFields(entries);
    case MapRep(m) =>
      var fields := Sorted(m.Keys);
      SortedEnumerates(m.Keys);
      SortedDistinct(m.Keys);
      SortedPairsAre(m, fields);
      var pairs := HashPairs(h);
      assert Unique(pairs);
      VectorFields(pairs);
      PairsMap(pairs, m, fields);
  }

  lemma PairsMap(pairs: seq<Pair>, m: map<string, string>, fields: seq<string>)
    requires |pairs| == |fields| && forall i :: 0 <= i < |fields| ==> fields[i] in m && pairs[i] == (fields[i], m[fields[i]])
    requires forall f :: f in m ==> f in fields
    requires Unique(pairs)
    ensures FromVector(pairs) == m
  {
    hide FromVector;
    VectorFields(pairs);
    var v := FromVector(pairs);
    forall f ensures f in v <==> f in m {
      if f in m {
        var i :| 0 <= i < |fields| && fields[i] == f;
        assert pairs[i].0 == f;
      }
    }
    forall f | f in m ensures v[f] == m[f] {
      var i :| 0 <= i < |fields| && fields[i] == f;
      assert pairs[i].0 == f && pairs[i].1 == m[f];
    }
  }

  /** A hash rebuilt from its own pairs has the same fields; it is in map form
      only if it has more than 64 of them, so only if the original was. */
  lemma ReloadHash(h: HashRep)
    requires WellFormed(h)
    ensures var r := WriteAll(EMPTY_HASH, HashPairs(h));
            WellFormed(r) && Fields(r) == Fields(h) && (r.MapRep? ==> h.MapRep?)
  {
    var pairs := HashPairs(h);
    HashPairsFields(h);
    WriteAllFields(EMPTY_HASH, pairs);
    OverlayVector([], pairs);
    assert [] + pairs == pairs;
    if h.VectorRep? {
      StaysVector(EMPTY_HASH, pairs);
    }
  }

  lemma {:induction false} StaysVector(h: HashRep, pairs: seq<Pair>)
    requires WellFormed(h) && h.VectorRep?
    requires |Fields(WriteAll(h, pairs))| <= DRUTA_MAX_KEY
    ensures WriteAll(h, pairs).VectorRep?
    decreases |pairs|
  {
    hide SetField, Fields, WellFormed;
    if pairs != [] {
      var g := SetField(h, pairs[0].0, pairs[0].1);
      SetRefines(h, pairs[0].0, pairs[0].1);
      WriteAllRefines(g, pairs[1..]);
      var f := Fields(WriteAll(h, pairs));
      SubsetSize(Fields(g).Keys, f.Keys);
      PutSize(Fields(h), pairs[0].0, pairs[0].1);
      if g.VectorRep? {
        StaysVector(g, pairs[1..]);
      }
    }
  }

  lemma PutSize(m: map<string, string>, field: string, value: string)
    ensures field !in m ==> |m[field := value].Keys| == |m| + 1
  {
    if field !in m { assert m[field := value].Keys == m.Keys + {field}; }
  }

  lemma SubsetSize(a: set<string>, b: set<string>)
    requires a <= b
    ensures |a| <= |b|
  {
    assert b == a + (b - a);
  }

  lemma ReloadCostsNoMore(v: Value)
    requires ValueOk(v)
    ensures ValueMem(Reload(v)) <= ValueMem(v) && ValueOk(Reload(v))
  {
    if v.HashValue? {
      var r := WriteAll(EMPTY_HASH, HashPairs(v.hash));
      ReloadHash(v.hash);
      MemIsSum(v.hash);
      MemIsSum(r);
      var m := Fields(v.hash);
      SumMonotone(FieldCosts(m, Overhead(r)), FieldCosts(m, Overhead(v.hash)));
    }
  }

  // ---------- commands come back ----------

  lemma CommandNames()
    ensures ToUpper("SET") == "SET" && ToUpper("RPUSH") == "RPUSH" && ToUpper("HSET") == "HSET"
    ensures ToUpper("SADD") == "SADD" && ToUpper("PXAT") == "PXAT"
  {}

  /** Run against a store without the key, a dumped command puts the reloaded
      value there, whatever the clock says. */
  lemma DumpedEffect(vals: Values, k: string, v: Value, clock: int)
    requires k !in vals && ValueOk(v) && !EmptyCollection(v)
    requires v.StringValue? ==> v.expiry <= LLONG_MAX
    ensures var a := Apply(vals, DumpValue(k, v), clock);
            a.success && a.effect == if v.HashValue? then Create(k, HashValue(EMPTY_HASH), Reload(v))
                                     else Put(k, Reload(v))
  {
    hide DumpValue, Apply, HashPairs;
    match v
    case StringValue(s, e) => DumpedEffectSet(vals, k, s, e, clock);
    case ListValue(items) => DumpedEffectPush(vals, k, items, clock);
    case HashValue(h) => DumpedEffectHSet(vals, k, h, clock);
    case SetValue(s) => DumpedEffectSAdd(vals, k, s, clock);
  }

  lemma DumpedEffectSet(vals: Values, k: string, s: string, e: int, clock: int)
    requires e <= LLONG_MAX
    ensures var v := StringValue(s, e);
            Apply(vals, DumpValue(k, v), clock) == Applied(Put(k, Reload(v)), Done, true)
  {
    hide ToUpper, ParseExpiry, ToString, Decode;
    DumpedOp(k, StringValue(s, e));
    DumpedSet(k, s, e, clock);
  }

  lemma DumpedEffectPush(vals: Values, k: string, items: seq<string>, clock: int)
    requires k !in vals && items != []
    ensures var v := ListValue(items);
            Apply(vals, DumpValue(k, v), clock) == Applied(Put(k, v), Integer(|items|), true)
  {
    hide ToUpper, PushAll, Decode;
    DumpedOp(k, ListValue(items));
    DumpedPush(k, items);
  }

  lemma DumpedEffectHSet(vals: Values, k: string, h: HashRep, clock: int)
    requires k !in vals && WellFormed(h) && !EmptyCollection(HashValue(h))
    ensures var v := HashValue(h);
            var a := Apply(vals, DumpValue(k, v), clock);
            a.success && a.effect == Create(k, HashValue(EMPTY_HASH), Reload(v))
  {
    hide ToUpper, Pairs, Flat, HashPairs, WriteAll, CreatedCount, Decode;
    DumpedOp(k, HashValue(h));
    DumpedHSet(k, h);
  }

  lemma DumpedEffectSAdd(vals: Values, k: string, s: set<string>, clock: int)
    requires k !in vals && s != {}
    ensures var v := SetValue(s);
            Apply(vals, DumpValue(k, v), clock) == Applied(Put(k, v), Integer(|s|), true)
  {
    hide ToUpper, Sorted, Decode;
    DumpedOp(k, SetValue(s));
    DumpedSAdd(k, s);
  }

  lemma DumpedOp(k: string, v: Value)
    requires ValueOk(v) && !EmptyCollection(v)
    ensures OpOf(DumpValue(k, v)) == match v
            case StringValue(_, _) => OpSet
            case ListValue(_) => OpRPush
            case HashValue(_) => OpHSet
            case SetValue(_) => OpSAdd
  {
    hide Flat, Pairs, HashPairs, Sorted, ToUpper, CreatedCount, ToString;
    CommandNames();
    match v
    case HashValue(h) => DumpedHSet(k, h);
    case SetValue(s) => DumpedSAdd(k, s);
    case _ =>
  }

  lemma DumpedPush(k: string, items: seq<string>)
    ensures var args := ["RPUSH", k] + items;
            args[2..] == items && PushAll([], args[2..], false) == items
  {
    PushedBack([], items);
    assert [] + items == items;
    assert (["RPUSH", k] + items)[2..] == items;
  }

  lemma DumpedSAdd(k: string, s: set<string>)
    ensures |Sorted(s)| == |s|
    ensures var args := ["SADD", k] + Sorted(s); {} + Elements(args[2..]) == s
  {
    SortedEnumerates(s);
    assert (["SADD", k] + Sorted(s))[2..] == Sorted(s);
  }

  lemma DumpedSet(k: string, s: string, e: int, clock: int)
    requires e <= LLONG_MAX
    ensures ParseExpiry(DumpValue(k, StringValue(s, e)), 3, 0, clock) == Some(if e > 0 then e else 0)
  {
    if e > 0 {
      CommandNames();
      var args := DumpValue(k, StringValue(s, e));
      assert args == ["SET", k, s, "PXAT", ToString(e)];
      ReadToString(e);
      assert ParseExpiry(args, 5, e, clock) == Some(e);
    }
  }

  lemma DumpedHSet(k: string, h: HashRep)
    requires HashPairs(h) != []
    ensures var args := ["HSET", k] + Flat(HashPairs(h));
            |args| >= 4 && |args| % 2 == 0 && Pairs(args[2..]) == HashPairs(h)
    ensures CreatedCount(EMPTY_HASH, HashPairs(h)) > 0
  {
    hide Pairs, Flat, HashPairs;
    var pairs := HashPairs(h);
    PairsOfFlat(pairs);
    assert (["HSET", k] + Flat(pairs))[2..] == Flat(pairs);
    assert pairs[0].0 !in Fields(EMPTY_HASH);
  }

  lemma {:induction false} ExecAllConcat(db: Db, a: seq<Command>, b: seq<Command>, clock: int)
    ensures ExecAll(db, a + b, clock) == ExecAll(ExecAll(db, a, clock), b, clock)
    decreases |a|
  {
    if a == [] {
      assert a + b == b;
    } else {
      assert (a + b)[1..] == a[1..] + b;
      ExecAllConcat(Exec(db, a[0], clock).db, a[1..], b, clock);
    }
  }

  /** With room for it, a dumped command appends its key as the most recent. */
  lemma DumpedAppends(cur: Db, k: string, v: Value, clock: int)
    requires Consistent(cur) && k !in cur.vals && ValueOk(v) && !EmptyCollection(v)
    requires v.StringValue? ==> v.expiry <= LLONG_MAX
    requires Fits(cur.vals[k := Reload(v)])
    ensures Exec(cur, DumpValue(k, v), clock).db == Append(cur, k, Reload(v))
  {
    hide DumpValue, Apply, Reload, Total;
    DumpedEffect(cur.vals, k, v, clock);
    var r := Reload(v);
    assert Append(cur, k, r).vals == cur.vals[k := r];
    if v.HashValue? {
      AppendedHash(cur, k, r);
    }
  }

  lemma WithoutLast(cur: Db, k: string, v: Value)
    requires Consistent(cur) && k !in cur.vals && ValueOk(v)
    ensures Without(cur.order + [k], k) == cur.order
  {
    AppendConsistent(cur, k, v);
    var order := cur.order + [k];
    WithoutAt(order, |cur.order|);
    assert order[..|cur.order|] + order[|cur.order| + 1..] == cur.order;
  }

  lemma AppendedHash(cur: Db, k: string, r: Value)
    requires Consistent(cur) && k !in cur.vals && Fits(cur.vals[k := r])
    ensures Settle(cur, Create(k, HashValue(EMPTY_HASH), r)) == Append(cur, k, r)
  {
    hide Total, Without, Consistent;
    var seed := HashValue(EMPTY_HASH);
    CreateSettlesPlainly(cur, k, seed, r);
    var first := Append(cur, k, seed);
    assert cur.vals[k := seed][k := r] == cur.vals[k := r];
    WithoutLast(cur, k, seed);
  }

  // ---------- the whole program comes back ----------

  ghost predicate ExpiriesFit(vals: Values) {
    forall k :: k in vals && vals[k].StringValue? ==> vals[k].expiry <= LLONG_MAX
  }

  lemma PrefixStep(db: Db, n: nat)
    requires Consistent(db) && n < |db.order|
    ensures var keys, more := db.order[..n], db.order[..n + 1];
            more[..|more| - 1] == keys && more[|more| - 1] == db.order[n]
            && db.order[n] !in keys && db.order[n] in db.vals
            && (forall x :: x in more <==> x in keys || x == db.order[n])
  {
    assert db.order[n] in db.order;
  }

  lemma ReloadedStep(keys: seq<string>, more: seq<string>, k: string, vals: Values, now: int)
    requires k !in keys && k in vals && forall x :: x in more <==> x in keys || x == k
    ensures ReloadedValues(more, vals, now) ==
            if Kept(vals[k], now) then ReloadedValues(keys, vals, now)[k := Reload(vals[k])]
            else ReloadedValues(keys, vals, now)
  {
    hide Kept, Reload;
  }

  lemma RestoredStep(db: Db, now: int, n: nat)
    requires Consistent(db) && n < |db.order|
    ensures db.order[n] in db.vals && db.order[n] !in RestoredUpTo(db, now, n).vals
    ensures var k := db.order[n];
            RestoredUpTo(db, now, n + 1) ==
              (if Kept(db.vals[k], now) then Append(RestoredUpTo(db, now, n), k, Reload(db.vals[k]))
               else RestoredUpTo(db, now, n))
    ensures Dump(db.order[..n + 1], db.vals, now)
            == Dump(db.order[..n], db.vals, now) + DumpKey(db.order[n], db.vals, now)
  {
    PrefixStep(db, n);
    hide Kept, Reload, DumpKey, Consistent;
    ReloadedStep(db.order[..n], db.order[..n + 1], db.order[n], db.vals, now);
  }

  /** Rebuilding costs no more than what is rebuilt, at every step. */
  lemma RestoredTotal(db: Db, now: int, n: nat)
    requires Consistent(db) && n <= |db.order|
    ensures Total(RestoredUpTo(db, now, n).vals) <= Total(db.vals)
  {
    var r := RestoredUpTo(db, now, n).vals;
    forall k | k in r ensures k in db.vals && ValueMem(r[k]) <= ValueMem(db.vals[k]) {
      ReloadCostsNoMore(db.vals[k]);
    }
    TotalMonotone(r, db.vals);
  }

  /** Running the rewritten log, on an empty store at any time: after the commands
      of the first n keys the store is exactly those keys that were kept, with
      the same values and in the same recency order, it never holds more bytes
      than the original did, and so nothing is ever evicted. */
  lemma {:induction false} ReplayRebuilds(db: Db, now: int, clock: int, n: nat)
    requires Consistent(db) && Fits(db.vals) && ExpiriesFit(db.vals) && n <= |db.order|
    ensures ExecAll(EMPTY, Dump(db.order[..n], db.vals, now), clock) == RestoredUpTo(db, now, n)
    ensures Consistent(RestoredUpTo(db, now, n))
    ensures Total(RestoredUpTo(db, now, n).vals) <= Total(db.vals)
  {
    hide Total, DumpValue, Kept, Reload, ExecAll, Exec, Dump, RestoredUpTo, Consistent, ExpiriesFit;
    RestoredTotal(db, now, n);
    if n == 0 {
      ReplayNothing(db, now, clock);
    } else {
      ReplayRebuilds(db, now, clock, n - 1);
      RestoredStep(db, now, n - 1);
      ReplayOne(db, now, clock, n - 1);
    }
  }

  lemma ReplayNothing(db: Db, now: int, clock: int)
    ensures Dump(db.order[..0], db.vals, now) == []
    ensures ExecAll(EMPTY, [], clock) == EMPTY == RestoredUpTo(db, now, 0)
    ensures Consistent(EMPTY)
  {
    assert ReloadedValues([], db.vals, now) == map[];
  }

  lemma ReplayOne(db: Db, now: int, clock: int, n: nat)
    requires Consistent(db) && Fits(db.vals) && ExpiriesFit(db.vals) && n < |db.order|
    requires Consistent(RestoredUpTo(db, now, n))
    requires ExecAll(EMPTY, Dump(db.order[..n], db.vals, now), clock) == RestoredUpTo(db, now, n)
    ensures ExecAll(EMPTY, Dump(db.order[..n + 1], db.vals, now), clock) == RestoredUpTo(db, now, n + 1)
    ensures Consistent(RestoredUpTo(db, now, n + 1))
  {
    hide Total, DumpValue, Reload, RestoredUpTo, Exec, Dump;
    var k := db.order[n];
    var cur := RestoredUpTo(db, now, n);
    var before := Dump(db.order[..n], db.vals, now);
    RestoredStep(db, now, n);
    ExecAllConcat(EMPTY, before, DumpKey(k, db.vals, now), clock);
    if Kept(db.vals[k], now) {
      var v := db.vals[k];
      RestoredTotal(db, now, n + 1);
      ReloadCostsNoMore(v);
      DumpedAppends(cur, k, v, clock);
      AppendConsistent(cur, k, Reload(v));
    }
  }

  // ---------- the program as bytes ----------

  lemma {:induction false} ListFits(items: seq<string>)
    ensures |items| <= ListMem(items)
    ensures forall i :: 0 <= i < |items| ==> |items[i]| <= ListMem(items)
  {
    if items != [] {
      ListFits(items[1..]);
    }
  }

  lemma SetFits(s: set<string>)
    ensures |s| <= SetMem(s)
    ensures forall e :: e in s ==> |e| <= SetMem(s)
  {
    SumCounts(ElementCosts(s));
    assert ElementCosts(s).Keys == s;
    forall e | e in s ensures |e| <= SetMem(s) {
      SumBounds(ElementCosts(s), e);
    }
  }

  lemma HashFits(h: HashRep)
    requires WellFormed(h)
    ensures |HashPairs(h)| <= HashMem(h)
    ensures forall i :: 0 <= i < |HashPairs(h)| ==>
              |HashPairs(h)[i].0| <= HashMem(h) && |HashPairs(h)[i].1| <= HashMem(h)
  {
    hide HashPairs, FromVector;
    var pairs, m := HashPairs(h), Fields(h);
    var costs := FieldCosts(m, Overhead(h));
    HashPairsFields(h);
    MemIsSum(h);
    SumCounts(costs);
    assert costs.Keys == m.Keys;
    VectorFields(pairs);
    forall i | 0 <= i < |pairs| ensures |pairs[i].0| <= HashMem(h) && |pairs[i].1| <= HashMem(h) {
      SumBounds(costs, pairs[i].0);
    }
  }

  lemma {:induction false} FlatSizes(pairs: seq<Pair>, bound: nat)
    requires forall i :: 0 <= i < |pairs| ==> |pairs[i].0| <= bound && |pairs[i].1| <= bound
    ensures forall i :: 0 <= i < |Flat(pairs)| ==> |Flat(pairs)[i]| <= bound
  {
    if pairs != [] {
      FlatSizes(pairs[1..], bound);
    }
  }

  /** A value that fits the memory ceiling dumps to a command the parser's ints
      can hold. */
  lemma DumpFits(k: string, v: Value)
    requires ValueOk(v) && NodeMem(k, v) <= LRU_MAX_MEMORY
    requires v.StringValue? ==> v.expiry <= LLONG_MAX
    ensures Sized(DumpValue(k, v))
  {
    hide HashPairs, Flat, Sorted, ListMem, HashMem, SetMem, ToString;
    match v
    case StringValue(s, e) => if e > 0 { ToStringLength(e); }
    case ListValue(items) => ListFits(items);
    case HashValue(h) =>
      HashFits(h);
      PairsOfFlat(HashPairs(h));
      FlatSizes(HashPairs(h), HashMem(h));
    case SetValue(s) =>
      SetFits(s);
      SortedEnumerates(s);
      assert forall i :: 0 <= i < |Sorted(s)| ==> Sorted(s)[i] in s;
  }

  lemma {:induction false} DumpSized(keys: seq<string>, vals: Values, now: int)
    requires Fits(vals) && ExpiriesFit(vals)
    requires forall k :: k in keys && k in vals ==> ValueOk(vals[k])
    ensures forall i :: 0 <= i < |Dump(keys, vals, now)| ==> Sized(Dump(keys, vals, now)[i])
  {
    hide Sized, DumpValue, Kept;
    if keys != [] {
      var k := keys[|keys| - 1];
      DumpSized(keys[..|keys| - 1], vals, now);
      if k in vals {
        TotalDrop(vals, k);
        DumpFits(k, vals[k]);
      }
    }
  }

  /** Rewrite, then start again from the file: the bytes parse back to the
      program, leave nothing over, and running it rebuilds the kept keys. */
  lemma RewriteRoundTrip(db: Db, now: int, clock: int)
    requires Consistent(db) && Fits(db.vals) && ExpiriesFit(db.vals)
    ensures var fed := Feed(INITIAL, FormatAll(Dump(db.order, db.vals, now)));
            fed.end == Some(INITIAL) && ExecAll(EMPTY, fed.commands, clock) == Restored(db, now)
  {
    DumpSized(db.order, db.vals, now);
    LogRoundTrip(Dump(db.order, db.vals, now));
    ReplayRebuilds(db, now, clock, |db.order|);
    assert db.order[..|db.order|] == db.order;
  }

  /** What a value is to its users: type, contents and expiry, not the form its
      hash is kept in. */
  ghost predicate SameData(a: Value, b: Value) {
    if a.HashValue? && b.HashValue? then Fields(a.hash) == Fields(b.hash) else a == b
  }

  /** A value comes back as it was exactly when it is not a string with a negative
      expiry: that one, which GET takes for expired, comes back everlasting. */
  lemma ReloadFaithfulIff(v: Value)
    requires ValueOk(v)
    ensures SameData(Reload(v), v) <==> !(v.StringValue? && v.expiry < 0)
  {
    if v.HashValue? { ReloadHash(v.hash); }
  }

  // ---------- appending ----------

  lemma {:induction false} FormatAllConcat(a: seq<Command>, b: seq<Command>)
    ensures FormatAll(a + b) == FormatAll(a) + FormatAll(b)
  {
    hide Format;
    if a == [] {
      assert a + b == b;
    } else {
      var first := Format(a[0]);
      FormatAllConcat(a[1..], b);
      assert (a + b)[1..] == a[1..] + b && (a + b)[0] == a[0];
      assert first + (FormatAll(a[1..]) + FormatAll(b)) == (first + FormatAll(a[1..])) + FormatAll(b);
    }
  }

  lemma FormatOne(c: Command)
    ensures FormatAll([c]) == Format(c)
  {
    assert [c][1..] == [];
  }

  /** What append_to_aof adds to the log. */
  function Appended(log: string, args: Command): string {
    if args != [] && IsLogged(ToUpper(args[0])) then log + Format(args) else log
  }

  method AppendToAof(log: string, args: Command) returns (r: string)
    ensures r == Appended(log, args)
  {
    if args == [] {
      return log;
    }
    var cmd := UpperCase(args[0]);
    if !IsLogged(cmd) {
      return log;
    }
    var resp := FormatRespCommand(args);
    r := log + resp;
  }

  /** The table is sorted strictly, as the binary search over it needs. */
  lemma LoggedIsSorted()
    ensures forall i, j :: 0 <= i < j < |LOGGED| ==> Less(LOGGED[i], LOGGED[j])
  {
    forall i | 0 <= i < |LOGGED| - 1 ensures Less(LOGGED[i], LOGGED[i + 1]) {}
    forall i, j | 0 <= i < j < |LOGGED| ensures Less(LOGGED[i], LOGGED[j]) {
      LoggedChain(i, j);
    }
  }

  lemma {:induction false} LoggedChain(i: nat, j: nat)
    requires i < j < |LOGGED|
    requires forall n {:trigger LOGGED[n]} :: 0 <= n < |LOGGED| - 1 ==> Less(LOGGED[n], LOGGED[n + 1])
    ensures Less(LOGGED[i], LOGGED[j])
    decreases j - i
  {
    if j > i + 1 {
      LoggedChain(i, j - 1);
      assert Less(LOGGED[j - 1], LOGGED[j - 1 + 1]);
      LessTransitive(LOGGED[i], LOGGED[j - 1], LOGGED[j]);
    }
  }
}

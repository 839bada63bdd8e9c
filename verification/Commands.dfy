/** What each command means: its effect on the store, its reply, and whether it
    reports success to the log. A command first decides on an effect by looking
    at the values only; the effect then settles in the recency order, evicting
    where the code does. */
module Commands {
  import opened Text
  import opened Costs
  import opened Hash
  import opened Keyspace

  datatype Op =
    | OpSet | OpGet | OpRPush | OpLPush | OpLRange | OpLPop | OpRPop | OpDel | OpLLen
    | OpHSet | OpHGet | OpHGetAll | OpHDel | OpSAdd | OpSDel | OpFlushDb | OpOther

  /** The handler a command name and its number of arguments select. */
  function Decode(name: string, argc: nat): Op {
    if name == "SET" && argc >= 3 then OpSet
    else if name == "GET" && argc == 2 then OpGet
    else if name == "RPUSH" && argc >= 3 then OpRPush
    else if name == "LPUSH" && argc >= 3 then OpLPush
    else if name == "LRANGE" && argc == 4 then OpLRange
    else if name == "LPOP" && argc >= 2 then OpLPop
    else if name == "RPOP" && argc >= 2 then OpRPop
    else if name == "DEL" && argc >= 2 then OpDel
    else if name == "LLEN" && argc == 2 then OpLLen
    else if name == "HSET" && argc >= 4 then OpHSet
    else if name == "HGET" && argc == 3 then OpHGet
    else if name == "HGETALL" && argc == 2 then OpHGetAll
    else if name == "HDEL" && argc >= 3 then OpHDel
    else if name == "SADD" && argc >= 3 then OpSAdd
    else if name == "SDEL" && argc >= 3 then OpSDel
    else if name == "FLUSHDB" then OpFlushDb
    else OpOther
  }

  /** The parser never hands over a command without a name. */
  function OpOf(args: Command): Op {
    if args == [] then OpOther else Decode(ToUpper(args[0]), |args|)
  }

  datatype Reply =
    | Done | Integer(n: int) | Bulk(text: string) | NilBulk | Items(items: seq<string>)
    | WrongType | Failed | Elsewhere

  datatype Effect =
    | Keep
    | Bump(key: string)
    | Delete(keys: seq<string>)
    | Put(key: string, value: Value)
    | Create(key: string, seed: Value, value: Value)
    | Wipe

  datatype Applied = Applied(effect: Effect, reply: Reply, success: bool)

  // ---------- SET and GET ----------

  /** The option loop of SET from argument i on; None when a number is refused. */
  function ParseExpiry(args: Command, i: nat, expiry: int, now: int): Option<int>
    decreases |args| - i
  {
    if i >= |args| then Some(expiry)
    else
      var opt := ToUpper(args[i]);
      if (opt == "EX" || opt == "PX" || opt == "PXAT") && i + 1 < |args| then
        match Stoll(args[i + 1])
        case None => None
        case Some(n) =>
          var next := if opt == "EX" then now + n * 1000 else if opt == "PX" then now + n else n;
          ParseExpiry(args, i + 2, next, now)
      else ParseExpiry(args, i + 1, expiry, now)
  }

  function ApplySet(vals: Values, args: Command, now: int): Applied
    requires |args| >= 3
  {
    match ParseExpiry(args, 3, 0, now)
    case None => Applied(Keep, Failed, false)
    case Some(e) => Applied(Put(args[1], StringValue(args[2], e)), Done, true)
  }

  predicate ExpiredForGet(v: Value, now: int) {
    v.StringValue? && v.expiry != 0 && now > v.expiry
  }

  function ApplyGet(vals: Values, key: string, now: int): Applied {
    if key !in vals then Applied(Keep, NilBulk, false)
    else if !vals[key].StringValue? then Applied(Keep, WrongType, false)
    else if ExpiredForGet(vals[key], now) then Applied(Delete([key]), NilBulk, false)
    else Applied(Bump(key), Bulk(vals[key].text), false)
  }

  // ---------- lists ----------

  function PushAll(items: seq<string>, added: seq<string>, front: bool): seq<string>
    decreases |added|
  {
    if added == [] then items
    else PushAll(if front then [added[0]] + items else items + [added[0]], added[1..], front)
  }

  function Reverse(s: seq<string>): seq<string> {
    if s == [] then [] else Reverse(s[1..]) + [s[0]]
  }

  lemma {:induction false} PushedFront(items: seq<string>, added: seq<string>)
    ensures PushAll(items, added, true) == Reverse(added) + items
    decreases |added|
  {
    if added == [] {
      assert Reverse(added) + items == items;
    } else {
      PushedFront([added[0]] + items, added[1..]);
      assert Reverse(added[1..]) + ([added[0]] + items) == Reverse(added[1..]) + [added[0]] + items;
    }
  }

  lemma {:induction false} PushedBack(items: seq<string>, added: seq<string>)
    ensures PushAll(items, added, false) == items + added
    decreases |added|
  {
    if added == [] {
      assert items + added == items;
    } else {
      PushedBack(items + [added[0]], added[1..]);
      assert items + [added[0]] + added[1..] == items + added;
    }
  }

  function ApplyPush(vals: Values, args: Command, front: bool): Applied
    requires |args| >= 3
  {
    var key := args[1];
    if key in vals && !vals[key].ListValue? then Applied(Keep, WrongType, false)
    else
      var items := PushAll(if key in vals then vals[key].items else [], args[2..], front);
      Applied(Put(key, ListValue(items)), Integer(|items|), true)
  }

  function PopCount(args: Command): int {
    if |args| != 3 then 1
    else match Stoi(args[2])
      case Some(n) => n
      case None => 1
  }

  /** How many items a pop takes: never more than there are. */
  function Popped(args: Command, size: nat): nat
    requires PopCount(args) >= 0
    ensures Popped(args, size) <= size
  {
    var n := PopCount(args);
    if n < size then n else size
  }

  /** The items in the order the reply lists them, and those that stay. */
  function TakeItems(items: seq<string>, n: nat, front: bool): (seq<string>, seq<string>)
    requires n <= |items|
  {
    if front then (items[..n], items[n..])
    else (Reverse(items[|items| - n..]), items[..|items| - n])
  }

  /** A negative count makes the code run off the end of the list; the model
      gives it no meaning beyond "nothing taken" and Safe excludes it. */
  function ApplyPop(vals: Values, args: Command, front: bool): Applied
    requires |args| >= 2
  {
    var key := args[1];
    if |args| > 3 then Applied(Keep, Failed, false)
    else if key !in vals then Applied(Keep, Items([]), false)
    else if !vals[key].ListValue? then Applied(Keep, WrongType, false)
    else
      var items := vals[key].items;
      var (taken, left) := TakeItems(items, if PopCount(args) < 0 then 0 else Popped(args, |items|), front);
      Applied(Put(key, ListValue(left)), Items(taken), true)
  }

  // ---------- hashes ----------

  function Pairs(args: seq<string>): seq<Pair> {
    if |args| < 2 then [] else [(args[0], args[1])] + Pairs(args[2..])
  }

  function WriteAll(h: HashRep, pairs: seq<Pair>): HashRep
    decreases |pairs|
  {
    if pairs == [] then h else WriteAll(SetField(h, pairs[0].0, pairs[0].1), pairs[1..])
  }

  function CreatedCount(h: HashRep, pairs: seq<Pair>): nat
    decreases |pairs|
  {
    if pairs == [] then 0
    else (if pairs[0].0 in Fields(h) then 0 else 1)
         + CreatedCount(SetField(h, pairs[0].0, pairs[0].1), pairs[1..])
  }

  const EMPTY_HASH := VectorRep([])

  function ApplyHSet(vals: Values, args: Command): Applied
    requires |args| >= 4
  {
    var key, pairs := args[1], Pairs(args[2..]);
    if |args| % 2 != 0 then Applied(Keep, Failed, false)
    else if key in vals && !vals[key].HashValue? then Applied(Keep, WrongType, false)
    else
      var h := if key in vals then vals[key].hash else EMPTY_HASH;
      var created := CreatedCount(h, pairs);
      var v := HashValue(WriteAll(h, pairs));
      Applied(if key in vals then Put(key, v) else Create(key, HashValue(EMPTY_HASH), v),
              Integer(created), created > 0)
  }

  function DeleteAll(h: HashRep, fields: seq<string>): HashRep
    decreases |fields|
  {
    if fields == [] then h else DeleteAll(DeleteField(h, fields[0]), fields[1..])
  }

  function DeletedCount(h: HashRep, fields: seq<string>): nat
    decreases |fields|
  {
    if fields == [] then 0
    else (if fields[0] in Fields(h) then 1 else 0)
         + DeletedCount(DeleteField(h, fields[0]), fields[1..])
  }

  function ApplyHDel(vals: Values, args: Command): Applied
    requires |args| >= 3
  {
    var key, fields := args[1], args[2..];
    if key !in vals then Applied(Keep, Integer(0), false)
    else if !vals[key].HashValue? then Applied(Keep, WrongType, false)
    else
      var h := vals[key].hash;
      var deleted := DeletedCount(h, fields);
      Applied(Put(key, HashValue(DeleteAll(h, fields))), Integer(deleted), deleted > 0)
  }

  function ApplyHGet(vals: Values, key: string, field: string): Applied {
    if key !in vals then Applied(Keep, NilBulk, false)
    else if !vals[key].HashValue? then Applied(Keep, WrongType, false)
    else match Lookup(Fields(vals[key].hash), field)
      case Some(v) => Applied(Bump(key), Bulk(v), false)
      case None => Applied(Keep, NilBulk, false)
  }

  // ---------- sets ----------

  function ApplySAdd(vals: Values, args: Command): Applied
    requires |args| >= 3
  {
    var key := args[1];
    if key in vals && !vals[key].SetValue? then Applied(Keep, WrongType, false)
    else
      var before := if key in vals then vals[key].elements else {};
      var after := before + Elements(args[2..]);
      var created := |after| - |before|;
      Applied(Put(key, SetValue(after)), Integer(created), created > 0)
  }

  function ApplySDel(vals: Values, args: Command): Applied
    requires |args| >= 3
  {
    var key := args[1];
    if key !in vals then Applied(Keep, Failed, false)
    else if !vals[key].SetValue? then Applied(Keep, WrongType, false)
    else
      var before := vals[key].elements;
      var after := before - Elements(args[2..]);
      var deleted := |before| - |after|;
      Applied(Put(key, SetValue(after)), Integer(deleted), deleted > 0)
  }

  // ---------- keys ----------

  function PresentCount(vals: Values, keys: seq<string>): nat
    decreases |keys|
  {
    if keys == [] then 0
    else (if keys[0] in vals then 1 else 0) + PresentCount(vals - {keys[0]}, keys[1..])
  }

  function ApplyDel(vals: Values, keys: seq<string>): Applied {
    var n := PresentCount(vals, keys);
    Applied(Delete(keys), Integer(n), n > 0)
  }

  function ApplyFlushDb(args: Command): Applied {
    if |args| < 2 || args[1] != "--sure" then Applied(Keep, Failed, false)
    else Applied(Wipe, Done, true)
  }

  /** Readers of lists and hashes that refresh the key they find; what they
      reply is not modelled. */
  function ApplyRead(vals: Values, key: string, refreshes: Value -> bool): Applied {
    Applied(if key in vals && refreshes(vals[key]) then Bump(key) else Keep, Elsewhere, false)
  }

  function Apply(vals: Values, args: Command, now: int): Applied
  {
    match OpOf(args)
    case OpSet => ApplySet(vals, args, now)
    case OpGet => ApplyGet(vals, args[1], now)
    case OpRPush => ApplyPush(vals, args, false)
    case OpLPush => ApplyPush(vals, args, true)
    case OpLPop => ApplyPop(vals, args, true)
    case OpRPop => ApplyPop(vals, args, false)
    case OpDel => ApplyDel(vals, args[1..])
    case OpHSet => ApplyHSet(vals, args)
    case OpHGet => ApplyHGet(vals, args[1], args[2])
    case OpHDel => ApplyHDel(vals, args)
    case OpSAdd => ApplySAdd(vals, args)
    case OpSDel => ApplySDel(vals, args)
    case OpFlushDb => ApplyFlushDb(args)
    case OpLRange => ApplyRead(vals, args[1], (v: Value) => v.ListValue?)
    case OpLLen => ApplyRead(vals, args[1], (v: Value) => v.ListValue?)
    case OpHGetAll => ApplyRead(vals, args[1], (v: Value) => v.HashValue?)
    case OpOther => Applied(Keep, Elsewhere, false)
  }

  // ---------- effects settle in the recency order ----------

  function RemoveAll(db: Db, keys: seq<string>): Db
    decreases |keys|
  {
    if keys == [] then db else RemoveAll(Remove(db, keys[0]), keys[1..])
  }

  ghost function Settle(db: Db, effect: Effect): Db {
    match effect
    case Keep => db
    case Bump(k) => Touch(db, k)
    case Delete(keys) => RemoveAll(db, keys)
    case Put(k, v) =>
      if k in db.vals then Touch(EvictToFit(Write(db, k, v)), k)
      else EvictToFit(Append(db, k, v))
    case Create(k, seed, v) =>
      // the code keeps a pointer to the new node here; Safe says it is alive
      var first := EvictToFit(Append(db, k, seed));
      if k in first.vals then Touch(EvictToFit(Write(first, k, v)), k) else first
    case Wipe => EMPTY
  }

  /** The state and answers a command leaves behind. */
  datatype Outcome = Outcome(db: Db, reply: Reply, success: bool)

  ghost function Exec(db: Db, args: Command, now: int): Outcome
  {
    var a := Apply(db.vals, args, now);
    Outcome(Settle(db, a.effect), a.reply, a.success)
  }

  ghost function ExecAll(db: Db, commands: seq<Command>, now: int): Db
    decreases |commands|
  {
    if commands == [] then db
    else ExecAll(Exec(db, commands[0], now).db, commands[1..], now)
  }

  /** What the effect does to the values when nothing is evicted. */
  function Result(vals: Values, effect: Effect): Values {
    match effect
    case Keep => vals
    case Bump(_) => vals
    case Delete(keys) => vals - Elements(keys)
    case Put(k, v) => vals[k := v]
    case Create(k, _, v) => vals[k := v]
    case Wipe => map[]
  }

  /** The source's own demands on its caller: a key being changed is not evicted
      by its own growth, as it is touched afterwards. */
  ghost predicate EffectSafe(db: Db, effect: Effect) {
    match effect
    case Put(k, v) => k in db.vals ==> k in EvictToFit(Write(db, k, v)).vals
    case Create(k, seed, v) =>
      var first := EvictToFit(Append(db, k, seed));
      k in first.vals && k in EvictToFit(Write(first, k, v)).vals
    case _ => true
  }

  /** A pop that reaches its loop, with a list at hand, does not count down from a
      negative number. */
  predicate PopOk(vals: Values, args: Command)
    requires |args| >= 2
  {
    |args| <= 3 && args[1] in vals && vals[args[1]].ListValue? ==> PopCount(args) >= 0
  }

  predicate PopsOk(vals: Values, args: Command) {
    OpOf(args) == OpLPop || OpOf(args) == OpRPop ==> PopOk(vals, args)
  }

  ghost predicate Safe(db: Db, args: Command, now: int)
  {
    EffectSafe(db, Apply(db.vals, args, now).effect) && PopsOk(db.vals, args)
  }

  // ---------- effects are well formed ----------

  lemma {:induction false} WriteAllRefines(h: HashRep, pairs: seq<Pair>)
    requires WellFormed(h)
    ensures WellFormed(WriteAll(h, pairs))
    ensures h.MapRep? ==> WriteAll(h, pairs).MapRep?
    ensures forall f :: f in Fields(h) ==> f in Fields(WriteAll(h, pairs))
    decreases |pairs|
  {
    if pairs != [] {
      SetRefines(h, pairs[0].0, pairs[0].1);
      WriteAllRefines(SetField(h, pairs[0].0, pairs[0].1), pairs[1..]);
    }
  }

  lemma {:induction false} DeleteAllRefines(h: HashRep, fields: seq<string>)
    requires WellFormed(h)
    ensures WellFormed(DeleteAll(h, fields))
    ensures DeleteAll(h, fields).MapRep? <==> h.MapRep?
    ensures Fields(DeleteAll(h, fields)) == Fields(h) - Elements(fields)
    decreases |fields|
  {
    if fields == [] {
      assert Fields(h) - Elements(fields) == Fields(h);
    } else {
      DeleteRefines(h, fields[0]);
      DeleteAllRefines(DeleteField(h, fields[0]), fields[1..]);
      assert Elements(fields) == {fields[0]} + Elements(fields[1..]);
      assert Fields(h) - {fields[0]} - Elements(fields[1..]) == Fields(h) - Elements(fields);
    }
  }

  predicate ValueOk(v: Value) {
    v.HashValue? ==> WellFormed(v.hash)
  }

  ghost predicate EffectFor(vals: Values, effect: Effect) {
    match effect
    case Put(_, v) => ValueOk(v)
    case Create(k, seed, v) => k !in vals && seed == HashValue(EMPTY_HASH) && ValueOk(v)
    case _ => true
  }

  lemma EffectOk(db: Db, args: Command, now: int)
    requires Consistent(db)
    ensures EffectFor(db.vals, Apply(db.vals, args, now).effect)
  {
    match OpOf(args)
    case OpHSet =>
      var h := if args[1] in db.vals && db.vals[args[1]].HashValue? then db.vals[args[1]].hash else EMPTY_HASH;
      WriteAllRefines(h, Pairs(args[2..]));
    case OpHDel =>
      if args[1] in db.vals && db.vals[args[1]].HashValue? {
        DeleteAllRefines(db.vals[args[1]].hash, args[2..]);
      }
    case _ =>
  }

  lemma {:induction false} RemoveAllConsistent(db: Db, keys: seq<string>)
    requires Consistent(db)
    ensures Consistent(RemoveAll(db, keys))
    ensures RemoveAll(db, keys).vals == db.vals - Elements(keys)
    ensures Total(RemoveAll(db, keys).vals) <= Total(db.vals)
    decreases |keys|
  {
    hide Consistent, Total, Elements, Without;
    if keys == [] {
      WithoutNothing(db.vals);
    } else {
      RemoveConsistent(db, keys[0]);
      RemoveAllConsistent(Remove(db, keys[0]), keys[1..]);
      OneByOne(db.vals, keys);
    }
  }

  lemma WithoutNothing(vals: Values)
    ensures vals - Elements([]) == vals
  {}

  lemma OneByOne(vals: Values, keys: seq<string>)
    requires keys != []
    ensures vals - {keys[0]} - Elements(keys[1..]) == vals - Elements(keys)
  {
    assert Elements(keys) == {keys[0]} + Elements(keys[1..]);
  }

  /** Every command keeps the store consistent and under the memory ceiling. */
  lemma ExecKeepsCeiling(db: Db, args: Command, now: int)
    requires Consistent(db) && Fits(db.vals)
    ensures Consistent(Exec(db, args, now).db)
    ensures Fits(Exec(db, args, now).db.vals)
  {
    EffectOk(db, args, now);
    SettleKeepsCeiling(db, Apply(db.vals, args, now).effect);
  }

  lemma SettleKeepsCeiling(db: Db, effect: Effect)
    requires Consistent(db) && Fits(db.vals) && EffectFor(db.vals, effect)
    ensures Consistent(Settle(db, effect)) && Fits(Settle(db, effect).vals)
  {
    match effect
    case Keep =>
    case Bump(k) => TouchConsistent(db, k);
    case Delete(keys) => RemoveAllConsistent(db, keys);
    case Put(k, v) =>
      if k in db.vals {
        WriteConsistent(db, k, v);
        EvictionDropsPrefix(Write(db, k, v));
        TouchConsistent(EvictToFit(Write(db, k, v)), k);
      } else {
        AppendConsistent(db, k, v);
        EvictionDropsPrefix(Append(db, k, v));
      }
    case Create(k, seed, v) =>
      AppendConsistent(db, k, seed);
      EvictionDropsPrefix(Append(db, k, seed));
      var first := EvictToFit(Append(db, k, seed));
      if k in first.vals {
        WriteConsistent(first, k, v);
        EvictionDropsPrefix(Write(first, k, v));
        TouchConsistent(EvictToFit(Write(first, k, v)), k);
      }
    case Wipe => TotalEmpty();
  }

  /** With room for the result nothing is evicted, and only then: the values
      after a command are its plain effect exactly when that effect fits. */
  lemma SettlesPlainlyIff(db: Db, effect: Effect)
    requires Consistent(db) && Fits(db.vals) && EffectFor(db.vals, effect)
    ensures Settle(db, effect).vals == Result(db.vals, effect) <==> Fits(Result(db.vals, effect))
  {
    SettleKeepsCeiling(db, effect);
    if Fits(Result(db.vals, effect)) {
      match effect
      case Delete(keys) => RemoveAllConsistent(db, keys);
      case Put(k, v) => assert Write(db, k, v).vals == Append(db, k, v).vals == Result(db.vals, effect);
      case Create(k, seed, v) => CreateSettlesPlainly(db, k, seed, v);
      case _ =>
    }
  }

  lemma CreateSettlesPlainly(db: Db, k: string, seed: Value, v: Value)
    requires Fits(db.vals[k := v]) && k !in db.vals && seed == HashValue(EMPTY_HASH)
    ensures Settle(db, Create(k, seed, v)).vals == db.vals[k := v]
    ensures EvictToFit(Append(db, k, seed)) == Append(db, k, seed)
  {
    hide Total, ValueMem;
    TotalPut(db.vals, k, seed);
    TotalPut(db.vals, k, v);
    EmptyHashIsFree();
    var grown := Append(db, k, seed);
    assert Total(grown.vals) <= Total(db.vals[k := v]);
    assert EvictToFit(grown) == grown;
    var written := Write(grown, k, v);
    assert written.vals == db.vals[k := v];
    assert EvictToFit(written) == written;
  }

  ghost predicate Within(a: Values, b: Values) {
    forall k :: k in a ==> k in b && a[k] == b[k]
  }

  lemma EvictionWithin(db: Db)
    requires Consistent(db)
    ensures Within(EvictToFit(db).vals, db.vals) && Consistent(EvictToFit(db))
  {
    EvictionDropsPrefix(db);
  }

  /** Settling may evict, but adds nothing to the plain result of an effect. */
  lemma SettlesWithin(db: Db, effect: Effect)
    requires Consistent(db) && EffectFor(db.vals, effect)
    ensures Within(Settle(db, effect).vals, Result(db.vals, effect))
  {
    hide Total, EvictToFit, Consistent;
    match effect
    case Delete(keys) => RemoveAllConsistent(db, keys);
    case Put(k, v) =>
      if k in db.vals {
        WriteConsistent(db, k, v);
        EvictionWithin(Write(db, k, v));
      } else {
        AppendConsistent(db, k, v);
        EvictionWithin(Append(db, k, v));
      }
    case Create(k, seed, v) =>
      AppendConsistent(db, k, seed);
      EvictionWithin(Append(db, k, seed));
      CreateWithin(db, EvictToFit(Append(db, k, seed)), k, seed, v);
    case _ =>
  }

  lemma CreateWithin(db: Db, first: Db, k: string, seed: Value, v: Value)
    requires k !in db.vals && ValueOk(v) && Consistent(first) && Within(first.vals, db.vals[k := seed])
    ensures k !in first.vals ==> Within(first.vals, db.vals[k := v])
    ensures k in first.vals ==> Within(Touch(EvictToFit(Write(first, k, v)), k).vals, db.vals[k := v])
  {
    hide Total, EvictToFit, Consistent, Without;
    if k in first.vals {
      WriteConsistent(first, k, v);
      EvictionWithin(Write(first, k, v));
    }
  }

  lemma EmptyHashIsFree()
    ensures ValueMem(HashValue(EMPTY_HASH)) == 0
  {}

  // ---------- when a command is safe ----------

  /** A key that is there may be changed exactly when the bytes from it up to the
      most recent key still fit the limit afterwards. */
  lemma PutSafeIff(db: Db, k: string, v: Value, i: nat)
    requires Consistent(db) && ValueOk(v) && i < |db.order| && db.order[i] == k
    ensures forall x :: x in db.order[i..] ==> x in db.vals[k := v]
    ensures EffectSafe(db, Put(k, v)) <==> SpanMem(db.order[i..], db.vals[k := v]) <= LRU_MAX_MEMORY
  {
    WriteConsistent(db, k, v);
    SurvivesIff(Write(db, k, v), i);
  }

  /** A hash is written to right after it has entered: that is safe exactly when the
      finished hash fits the limit on its own. */
  lemma CreateSafeIff(db: Db, k: string, v: Value)
    requires Consistent(db) && k !in db.vals && ValueOk(v)
    ensures EffectSafe(db, Create(k, HashValue(EMPTY_HASH), v)) <==> NodeMem(k, v) <= LRU_MAX_MEMORY
  {
    hide Consistent, Total, SpanMem, EvictToFit;
    var seed := HashValue(EMPTY_HASH);
    NewKeySurvivesIff(db, k, seed);
    assert ValueMem(seed) == 0;
    var first := EvictToFit(Append(db, k, seed));
    if k in first.vals {
      NewKeyIsLast(db, k, seed);
      WriteConsistent(first, k, v);
      LastSpan(Write(first, k, v), k);
      SurvivesIff(Write(first, k, v), |first.order| - 1);
    }
  }

  lemma NewKeyIsLast(db: Db, k: string, v: Value)
    requires Consistent(db) && k !in db.vals && ValueOk(v) && k in EvictToFit(Append(db, k, v)).vals
    ensures var first := EvictToFit(Append(db, k, v));
            Consistent(first) && first.order != [] && first.order[|first.order| - 1] == k
  {
    hide Total, EvictToFit, Consistent, Evicted;
    var grown := Append(db, k, v);
    AppendConsistent(db, k, v);
    EvictionDropsPrefix(grown);
    ListedKey(EvictToFit(grown), k);
    LastOfSuffix(grown.order, Evicted(grown));
  }

  lemma ListedKey(db: Db, k: string)
    requires Consistent(db) && k in db.vals
    ensures k in db.order
  {}

  lemma LastOfSuffix(order: seq<string>, n: nat)
    requires n <= |order|
    ensures n < |order| ==> order[n..] != [] && order[n..][|order| - n - 1] == order[|order| - 1]
  {}

  lemma LastSpan(db: Db, k: string)
    requires db.order != [] && db.order[|db.order| - 1] == k && k in db.vals
    ensures SpanMem([k], db.vals) == NodeMem(k, db.vals[k])
    ensures db.order[|db.order| - 1..] == [k]
  {
    assert [k][1..] == [];
    assert SpanMem([], db.vals) == 0;
  }

  /** A full store whose least recent key is a list. */
  const FULL := Db(["a", "b"],
                   map["a" := ListValue([]),
                       "b" := StringValue(FILLER, 0)])

  const FILLER: string := seq(LRU_MAX_MEMORY - 2 * (NODE_OBJECT + 15) - STRING_OBJECT, _ => 'x')

  /** Three commands that fill the store in this way. */
  const FILLING: seq<Command> := [["RPUSH", "a", "x"], ["LPOP", "a"], ["SET", "b", FILLER]]

  lemma FullIsReached(now: int)
    ensures ExecAll(EMPTY, FILLING, now) == FULL
  {
    hide Apply, Settle;
    FillingSteps(now);
    var a, b, c := FILLING[0], FILLING[1], FILLING[2];
    var first := Exec(EMPTY, a, now).db;
    var second := Exec(first, b, now).db;
    assert FILLING[1..] == [b, c] && [b, c][1..] == [c] && [c][1..] == [];
    assert ExecAll(Exec(second, c, now).db, [], now) == FULL;
    assert ExecAll(second, [c], now) == FULL;
    assert ExecAll(first, [b, c], now) == FULL;
  }

  lemma FillingSteps(now: int)
    ensures var one, none := Db(["a"], map["a" := ListValue(["x"])]), Db(["a"], map["a" := ListValue([])]);
            && Exec(EMPTY, FILLING[0], now).db == one
            && Exec(one, FILLING[1], now).db == none
            && Exec(none, FILLING[2], now).db == FULL
  {
    FillingEffects(now);
    FullIsFull();
    hide Apply, Total;
    var one, none := Db(["a"], map["a" := ListValue(["x"])]), Db(["a"], map["a" := ListValue([])]);
    TotalEmpty();
    TotalPut(map[], "a", one.vals["a"]);
    TotalPut(map[], "a", none.vals["a"]);
    assert map[]["a" := one.vals["a"]] == one.vals && map[]["a" := none.vals["a"]] == none.vals;
    assert ListMem(["x"]) == ItemMem("x") + ListMem(["x"][1..]);
    assert Append(EMPTY, "a", one.vals["a"]) == one;
    assert Write(one, "a", none.vals["a"]) == none;
    assert Touch(none, "a") == none;
    assert Append(none, "b", FULL.vals["b"]) == FULL;
  }

  lemma FillingEffects(now: int)
    ensures var one, none := map["a" := ListValue(["x"])], map["a" := ListValue([])];
            && Apply(map[], FILLING[0], now).effect == Put("a", ListValue(["x"]))
            && Apply(one, FILLING[1], now).effect == Put("a", ListValue([]))
            && Apply(none, FILLING[2], now).effect == Put("b", FULL.vals["b"])
  {
    assert ToUpper("RPUSH") == "RPUSH" && ToUpper("LPOP") == "LPOP" && ToUpper("SET") == "SET";
    PushedBack([], FILLING[0][2..]);
    assert [] + FILLING[0][2..] == ["x"];
  }

  /** The push that uses a node its own eviction has freed: one more item for the
      least recent list of a full store. */
  lemma PushToOldestIsUnsafe(item: string, now: int)
    ensures ExecAll(EMPTY, FILLING, now) == FULL
    ensures Consistent(FULL) && Total(FULL.vals) == LRU_MAX_MEMORY
    ensures !Safe(FULL, ["RPUSH", "a", item], now)
  {
    FullIsFull();
    FullIsReached(now);
    hide Total, SpanMem, Consistent;
    var args := ["RPUSH", "a", item];
    var v := ListValue([item]);
    PushedItem(args, item, now);
    TotalPut(FULL.vals, "a", v);
    WriteConsistent(FULL, "a", v);
    PutSafeIff(FULL, "a", v, 0);
    SpanIsTotal(Write(FULL, "a", v));
    assert FULL.order[0..] == FULL.order;
  }

  lemma FullIsFull()
    ensures Consistent(FULL) && Total(FULL.vals) == LRU_MAX_MEMORY
  {
    var a, b := FULL.vals["a"], FULL.vals["b"];
    assert FULL.vals == map[]["a" := a]["b" := b];
    TotalEmpty();
    TotalPut(map[], "a", a);
    TotalPut(map["a" := a], "b", b);
  }

  lemma PushedItem(args: Command, item: string, now: int)
    requires args == ["RPUSH", "a", item]
    ensures Apply(FULL.vals, args, now).effect == Put("a", ListValue([item]))
    ensures ListMem([item]) == ItemMem(item)
  {
    assert ToUpper("RPUSH") == "RPUSH";
    PushedBack([], args[2..]);
    assert [] + args[2..] == [item];
    assert ListMem([item]) == ItemMem(item) + ListMem([item][1..]);
  }
}

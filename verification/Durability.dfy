/** Live store and log side by side: over a run of commands, rewrites and crashes,
    what replaying the log would give stays in step with what the store holds. */
module Durability {
  import opened Text
  import opened Costs
  import opened Hash
  import opened Keyspace
  import opened Commands
  import opened Resp
  import opened Aof
  import opened Replay

  // ---------- when a replayed store is as good as the live one ----------

  /** Same data; and a replayed hash is in map form only where the live one is,
      so that it never costs more. */
  ghost predicate Matches(live: Value, replayed: Value) {
    && ValueOk(live) && ValueOk(replayed) && SameData(live, replayed)
    && (replayed.HashValue? && replayed.hash.MapRep? ==> live.HashValue? && live.hash.MapRep?)
  }

  /** A value the log may leave out: an empty collection or an expired string. */
  predicate Droppable(v: Value, now: int) {
    match v
    case StringValue(_, e) => 0 < e < now
    case ListValue(items) => items == []
    case HashValue(h) => Fields(h) == map[]
    case SetValue(s) => s == {}
  }

  function At(vals: Values, k: string): Option<Value> {
    if k in vals then Some(vals[k]) else None
  }

  ghost predicate KeyInSync(live: Option<Value>, replayed: Option<Value>, now: int) {
    match replayed
    case Some(r) => live.Some? && Matches(live.value, r)
    case None => live.Some? ==> ValueOk(live.value) && Droppable(live.value, now)
  }

  /** Every key of the replayed store holds the live data, and every live key is
      there except those the log may leave out. */
  ghost predicate InSync(live: Values, replayed: Values, now: int) {
    forall k :: KeyInSync(At(live, k), At(replayed, k), now)
  }

  lemma SyncMemory(live: Values, replayed: Values, now: int)
    requires InSync(live, replayed, now)
    ensures Total(replayed) <= Total(live)
  {
    forall k | k in replayed ensures k in live && ValueMem(replayed[k]) <= ValueMem(live[k]) {
      assert KeyInSync(At(live, k), At(replayed, k), now);
      MatchCostsNoMore(live[k], replayed[k]);
    }
    TotalMonotone(replayed, live);
  }

  lemma MatchCostsNoMore(live: Value, replayed: Value)
    requires Matches(live, replayed)
    ensures ValueMem(replayed) <= ValueMem(live)
  {
    if live.HashValue? {
      MemIsSum(live.hash);
      MemIsSum(replayed.hash);
      var m := Fields(live.hash);
      SumMonotone(FieldCosts(m, Overhead(replayed.hash)), FieldCosts(m, Overhead(live.hash)));
    }
  }

  lemma SyncLater(live: Values, replayed: Values, now: int, later: int)
    requires InSync(live, replayed, now) && now <= later
    ensures InSync(live, replayed, later)
  {
    forall k ensures KeyInSync(At(live, k), At(replayed, k), later) {
      assert KeyInSync(At(live, k), At(replayed, k), now);
    }
  }

  // ---------- changing one key on both sides or on one ----------

  lemma PutBoth(live: Values, replayed: Values, k: string, v: Value, w: Value, now: int)
    requires InSync(live, replayed, now) && Matches(v, w)
    ensures InSync(live[k := v], replayed[k := w], now)
  {
    var l, r := live[k := v], replayed[k := w];
    forall j ensures KeyInSync(At(l, j), At(r, j), now) {
      assert KeyInSync(At(live, j), At(replayed, j), now);
    }
  }

  lemma PutLive(live: Values, replayed: Values, k: string, v: Value, now: int)
    requires InSync(live, replayed, now) && KeyInSync(Some(v), At(replayed, k), now)
    ensures InSync(live[k := v], replayed, now)
  {
    var l := live[k := v];
    forall j ensures KeyInSync(At(l, j), At(replayed, j), now) {
      assert KeyInSync(At(live, j), At(replayed, j), now);
    }
  }

  lemma DropBoth(live: Values, replayed: Values, keys: seq<string>, now: int)
    requires InSync(live, replayed, now)
    ensures InSync(live - Elements(keys), replayed - Elements(keys), now)
  {
    var l, r := live - Elements(keys), replayed - Elements(keys);
    forall j ensures KeyInSync(At(l, j), At(r, j), now) {
      assert KeyInSync(At(live, j), At(replayed, j), now);
    }
  }

  // ---------- hashes on both sides ----------

  lemma {:induction false} WritesMatch(a: HashRep, b: HashRep, pairs: seq<Pair>)
    requires Matches(HashValue(a), HashValue(b))
    ensures Matches(HashValue(WriteAll(a, pairs)), HashValue(WriteAll(b, pairs)))
    ensures CreatedCount(a, pairs) == CreatedCount(b, pairs)
    decreases |pairs|
  {
    hide SetField, WellFormed, Fields;
    if pairs != [] {
      var (f, v) := pairs[0];
      SetRefines(a, f, v);
      SetRefines(b, f, v);
      SetForms(a, b, f, v);
      WritesMatch(SetField(a, f, v), SetField(b, f, v), pairs[1..]);
    }
  }

  lemma SetForms(a: HashRep, b: HashRep, f: string, v: string)
    requires Matches(HashValue(a), HashValue(b))
    ensures SetField(b, f, v).MapRep? ==> SetField(a, f, v).MapRep?
  {
    hide SetField, WellFormed, Fields;
    SetRefines(a, f, v);
    SetRefines(b, f, v);
  }

  lemma {:induction false} DeletesMatch(a: HashRep, b: HashRep, fields: seq<string>)
    requires Matches(HashValue(a), HashValue(b))
    ensures Matches(HashValue(DeleteAll(a, fields)), HashValue(DeleteAll(b, fields)))
    ensures DeletedCount(a, fields) == DeletedCount(b, fields)
    decreases |fields|
  {
    hide DeleteField, WellFormed, Fields;
    if fields != [] {
      DeleteRefines(a, fields[0]);
      DeleteRefines(b, fields[0]);
      DeletesMatch(DeleteField(a, fields[0]), DeleteField(b, fields[0]), fields[1..]);
    }
  }

  lemma {:induction false} NothingDeleted(h: HashRep, fields: seq<string>)
    requires WellFormed(h) && DeletedCount(h, fields) == 0
    ensures Fields(DeleteAll(h, fields)) == Fields(h)
    decreases |fields|
  {
    hide DeleteField, WellFormed, Fields;
    if fields != [] {
      DeleteRefines(h, fields[0]);
      assert Fields(h) - {fields[0]} == Fields(h);
      NothingDeleted(DeleteField(h, fields[0]), fields[1..]);
    }
  }

  lemma EmptyHash(h: HashRep)
    requires WellFormed(h)
    ensures EmptyCollection(HashValue(h)) <==> Fields(h) == map[]
    ensures Fields(h) == map[] ==> Matches(HashValue(h), HashValue(EMPTY_HASH))
  {
    hide HashPairs;
    HashPairsFields(h);
  }

  // ---------- one command ----------

  /** The argument counts the dispatcher has checked. */
  lemma Arity(args: Command)
    ensures OpOf(args) in {OpSet, OpRPush, OpLPush, OpHDel, OpSAdd, OpSDel, OpHGet} ==> |args| >= 3
    ensures OpOf(args) in {OpLPop, OpRPop, OpDel, OpGet} ==> |args| >= 2
    ensures OpOf(args) == OpHSet ==> |args| >= 4
  {
    hide ToUpper;
  }

  /** Whether the expiry a SET ends up with is relative to the clock: the last time
      option that takes part is EX or PX. The log repeats it word for word. */
  predicate Relative(args: Command, i: nat, soFar: bool)
    decreases |args| - i
  {
    if i >= |args| then soFar
    else
      var opt := ToUpper(args[i]);
      if (opt == "EX" || opt == "PX" || opt == "PXAT") && i + 1 < |args| then
        Relative(args, i + 2, opt != "PXAT")
      else Relative(args, i + 1, soFar)
  }

  /** An HSET that changes a value but creates no field: it reports 0 and is
      therefore not logged. */
  predicate LosesWrite(vals: Values, args: Command)
    requires |args| >= 4
  {
    && |args| % 2 == 0 && args[1] in vals && vals[args[1]].HashValue?
    && var h := vals[args[1]].hash;
       CreatedCount(h, Pairs(args[2..])) == 0 && Fields(WriteAll(h, Pairs(args[2..]))) != Fields(h)
  }

  /** What has to be ruled out before a command for the log to follow it: a
      relative time to live, a GET that deletes, unlogged, an expired key the log
      still holds, and an HSET that only overwrites. */
  predicate LogFollows(vals: Values, logged: Values, args: Command, now: int) {
    match OpOf(args)
    case OpSet => ParseExpiry(args, 3, 0, now).Some? ==> !Relative(args, 3, false)
    case OpGet => args[1] in vals && ExpiredForGet(vals[args[1]], now) ==> args[1] !in logged
    case OpHSet => !LosesWrite(vals, args)
    case _ => true
  }

  /** What the replay of the extended log does to the replayed values. */
  ghost function Replayed(live: Values, replayed: Values, args: Command, now: int, clock: int): Values {
    var a := Apply(live, args, now);
    if a.effect == Wipe then map[]
    else if a.success then Result(replayed, Apply(replayed, args, clock).effect)
    else replayed
  }

  ghost predicate StepInSync(live: Values, replayed: Values, args: Command, now: int, clock: int) {
    InSync(Result(live, Apply(live, args, now).effect), Replayed(live, replayed, args, now, clock), now)
  }

  /** Parsed at two times, a SET is refused at both or neither; its expiries differ
      by the time in between if it is relative, and are equal if it is not. */
  lemma {:induction false} TwoClocks(args: Command, i: nat, rel: bool, e: int, f: int, now: int, clock: int)
    requires e - f == if rel then now - clock else 0
    ensures var p, q := ParseExpiry(args, i, e, now), ParseExpiry(args, i, f, clock);
            && (p.Some? <==> q.Some?)
            && (p.Some? ==> p.value - q.value == if Relative(args, i, rel) then now - clock else 0)
    decreases |args| - i
  {
    hide ToUpper, Stoll;
    if i < |args| {
      var opt := ToUpper(args[i]);
      if (opt == "EX" || opt == "PX" || opt == "PXAT") && i + 1 < |args| {
        match Stoll(args[i + 1])
        case None =>
        case Some(n) =>
          var p := if opt == "EX" then now + n * 1000 else if opt == "PX" then now + n else n;
          var q := if opt == "EX" then clock + n * 1000 else if opt == "PX" then clock + n else n;
          TwoClocks(args, i + 2, opt != "PXAT", p, q, now, clock);
      } else {
        TwoClocks(args, i + 1, rel, e, f, now, clock);
      }
    }
  }

  lemma SetStep(live: Values, replayed: Values, args: Command, now: int, clock: int)
    requires InSync(live, replayed, now) && OpOf(args) == OpSet
    requires ParseExpiry(args, 3, 0, now).Some? ==> !Relative(args, 3, false)
    ensures StepInSync(live, replayed, args, now, clock)
  {
    hide OpOf, InSync, ParseExpiry, Relative;
    Arity(args);
    TwoClocks(args, 3, false, 0, 0, now, clock);
    match ParseExpiry(args, 3, 0, now)
    case None =>
    case Some(e) =>
      var v := StringValue(args[2], e);
      PutBoth(live, replayed, args[1], v, v, now);
  }

  /** A SET keeps the replay in step at every replay time exactly when its expiry is
      not relative, or it is refused. */
  lemma SetInSyncIff(live: Values, replayed: Values, args: Command, now: int)
    requires InSync(live, replayed, now) && OpOf(args) == OpSet
    ensures (forall clock :: StepInSync(live, replayed, args, now, clock)) <==>
            (ParseExpiry(args, 3, 0, now).Some? ==> !Relative(args, 3, false))
  {
    Arity(args);
    if ParseExpiry(args, 3, 0, now).Some? && Relative(args, 3, false) {
      TwoClocks(args, 3, false, 0, 0, now, now + 1);
      RelativeDiffers(live, replayed, args, now, now + 1);
      assert !StepInSync(live, replayed, args, now, now + 1);
    } else {
      forall clock ensures StepInSync(live, replayed, args, now, clock) {
        SetStep(live, replayed, args, now, clock);
      }
    }
  }

  lemma RelativeDiffers(live: Values, replayed: Values, args: Command, now: int, clock: int)
    requires OpOf(args) == OpSet && |args| >= 3
    requires var p, q := ParseExpiry(args, 3, 0, now), ParseExpiry(args, 3, 0, clock);
             p.Some? && q.Some? && p.value != q.value
    ensures !StepInSync(live, replayed, args, now, clock)
  {
    hide OpOf, ParseExpiry;
    var k := args[1];
    var l := Result(live, Apply(live, args, now).effect);
    var r := Replayed(live, replayed, args, now, clock);
    assert !KeyInSync(At(l, k), At(r, k), now);
  }

  /** How the two sides of one key look, spelled out. */
  lemma KeySides(live: Values, replayed: Values, k: string, now: int)
    requires InSync(live, replayed, now)
    ensures k in replayed ==> k in live && Matches(live[k], replayed[k])
    ensures k in live ==> ValueOk(live[k])
    ensures k in live && k !in replayed ==> Droppable(live[k], now)
  {
    assert KeyInSync(At(live, k), At(replayed, k), now);
  }

  lemma PushStep(live: Values, replayed: Values, args: Command, front: bool, now: int, clock: int)
    requires InSync(live, replayed, now)
    requires OpOf(args) == if front then OpLPush else OpRPush
    ensures StepInSync(live, replayed, args, now, clock)
  {
    hide OpOf, InSync, PushAll;
    Arity(args);
    var k := args[1];
    KeySides(live, replayed, k, now);
    if k !in live || live[k].ListValue? {
      var items := PushAll(if k in live then live[k].items else [], args[2..], front);
      PutBoth(live, replayed, k, ListValue(items), ListValue(items), now);
    }
  }

  lemma PopStep(live: Values, replayed: Values, args: Command, front: bool, now: int, clock: int)
    requires InSync(live, replayed, now)
    requires OpOf(args) == if front then OpLPop else OpRPop
    ensures StepInSync(live, replayed, args, now, clock)
  {
    hide OpOf, InSync, TakeItems, PopCount, Popped;
    Arity(args);
    var k := args[1];
    KeySides(live, replayed, k, now);
    if |args| <= 3 && k in live && live[k].ListValue? {
      var items := live[k].items;
      var left := TakeItems(items, if PopCount(args) < 0 then 0 else Popped(args, |items|), front).1;
      if k in replayed {
        PutBoth(live, replayed, k, ListValue(left), ListValue(left), now);
      } else {
        TakeFromNothing(front);
        PutLive(live, replayed, k, ListValue(left), now);
      }
    }
  }

  lemma TakeFromNothing(front: bool)
    ensures TakeItems([], 0, front) == ([], [])
  {}

  lemma {:induction false} NonePresent(vals: Values, keys: seq<string>)
    requires PresentCount(vals, keys) == 0
    ensures vals - Elements(keys) == vals
    decreases |keys|
  {
    if keys != [] {
      assert vals - {keys[0]} == vals;
      NonePresent(vals, keys[1..]);
      assert Elements(keys) == {keys[0]} + Elements(keys[1..]);
    }
  }

  lemma DelStep(live: Values, replayed: Values, args: Command, now: int, clock: int)
    requires InSync(live, replayed, now) && OpOf(args) == OpDel
    ensures StepInSync(live, replayed, args, now, clock)
  {
    hide OpOf, InSync, Elements, PresentCount;
    Arity(args);
    var keys := args[1..];
    DropBoth(live, replayed, keys, now);
    if PresentCount(live, keys) == 0 {
      NonePresent(live, keys);
    }
  }

  lemma HSetStep(live: Values, replayed: Values, args: Command, now: int, clock: int)
    requires InSync(live, replayed, now) && OpOf(args) == OpHSet && !LosesWrite(live, args)
    ensures StepInSync(live, replayed, args, now, clock)
  {
    hide OpOf, InSync, WriteAll, CreatedCount, Pairs, Matches;
    Arity(args);
    var k := args[1];
    KeySides(live, replayed, k, now);
    if |args| % 2 == 0 && (k !in live || live[k].HashValue?) {
      HSetSync(live, replayed, k, args, now);
    }
  }

  lemma HSetSync(live: Values, replayed: Values, k: string, args: Command, now: int)
    requires InSync(live, replayed, now) && |args| >= 4 && (k in live ==> live[k].HashValue?)
    ensures k in replayed ==> replayed[k].HashValue?
    ensures var pairs := Pairs(args[2..]);
            var h := if k in live then live[k].hash else EMPTY_HASH;
            var g := if k in replayed then replayed[k].hash else EMPTY_HASH;
            var v, w := HashValue(WriteAll(h, pairs)), HashValue(WriteAll(g, pairs));
            && (CreatedCount(h, pairs) > 0 ==> InSync(live[k := v], replayed[k := w], now))
            && (CreatedCount(h, pairs) == 0 ==>
                  k in replayed && (Fields(WriteAll(h, pairs)) == Fields(h) ==> InSync(live[k := v], replayed, now)))
  {
    hide InSync, WriteAll, CreatedCount, Pairs, Fields, WellFormed;
    var pairs := Pairs(args[2..]);
    KeySides(live, replayed, k, now);
    HashSides(live, replayed, k, now);
    var h := if k in live then live[k].hash else EMPTY_HASH;
    var g := if k in replayed then replayed[k].hash else EMPTY_HASH;
    WritesMatch(h, g, pairs);
    WrittenForm(h, pairs);
    WritesCreate(h, args);
    var v, w := HashValue(WriteAll(h, pairs)), HashValue(WriteAll(g, pairs));
    if CreatedCount(h, pairs) > 0 {
      PutBoth(live, replayed, k, v, w, now);
    } else if Fields(WriteAll(h, pairs)) == Fields(h) {
      PutLive(live, replayed, k, v, now);
    }
  }

  /** A hash on one side or both, or on neither: it matches the other side's,
      which counts as empty where it is missing. */
  lemma HashSides(live: Values, replayed: Values, k: string, now: int)
    requires InSync(live, replayed, now) && (k in live ==> live[k].HashValue?)
    ensures k in replayed ==> replayed[k].HashValue?
    ensures var h := if k in live then live[k].hash else EMPTY_HASH;
            var g := if k in replayed then replayed[k].hash else EMPTY_HASH;
            Matches(HashValue(h), HashValue(g)) && (k !in replayed ==> Fields(h) == map[])
  {
    KeySides(live, replayed, k, now);
    hide InSync, HashPairs;
    EmptyHash(EMPTY_HASH);
    if k in live { EmptyHash(live[k].hash); }
  }

  lemma WrittenForm(h: HashRep, pairs: seq<Pair>)
    requires WellFormed(h)
    ensures WellFormed(WriteAll(h, pairs)) && (h.MapRep? ==> WriteAll(h, pairs).MapRep?)
  {
    WriteAllRefines(h, pairs);
  }

  /** Into an empty hash, an HSET always creates something. */
  lemma WritesCreate(h: HashRep, args: Command)
    requires |args| >= 4
    ensures Fields(h) == map[] ==> CreatedCount(h, Pairs(args[2..])) > 0
  {
    var rest := args[2..];
    assert Pairs(rest) == [(rest[0], rest[1])] + Pairs(rest[2..]);
  }

  lemma HDelStep(live: Values, replayed: Values, args: Command, now: int, clock: int)
    requires InSync(live, replayed, now) && OpOf(args) == OpHDel
    ensures StepInSync(live, replayed, args, now, clock)
  {
    hide OpOf, InSync, DeleteAll, DeletedCount, Matches;
    Arity(args);
    var k := args[1];
    KeySides(live, replayed, k, now);
    if k in live && live[k].HashValue? {
      HDelSync(live, replayed, k, args[2..], now);
    }
  }

  lemma HDelSync(live: Values, replayed: Values, k: string, fields: seq<string>, now: int)
    requires InSync(live, replayed, now) && k in live && live[k].HashValue?
    ensures k in replayed ==> replayed[k].HashValue?
    ensures var h := live[k].hash;
            var v := HashValue(DeleteAll(h, fields));
            && (DeletedCount(h, fields) > 0 ==>
                  k in replayed && InSync(live[k := v], replayed[k := HashValue(DeleteAll(replayed[k].hash, fields))], now))
            && (DeletedCount(h, fields) == 0 ==> InSync(live[k := v], replayed, now))
  {
    hide InSync, DeleteAll, DeletedCount, Fields, WellFormed;
    KeySides(live, replayed, k, now);
    HashSides(live, replayed, k, now);
    var h := live[k].hash;
    var g := if k in replayed then replayed[k].hash else EMPTY_HASH;
    DeletesMatch(h, g, fields);
    DeletedForm(h, fields);
    if Fields(h) == map[] { NothingToDelete(h, fields); }
    var v, w := HashValue(DeleteAll(h, fields)), HashValue(DeleteAll(g, fields));
    if DeletedCount(h, fields) > 0 {
      PutBoth(live, replayed, k, v, w, now);
    } else {
      NothingDeleted(h, fields);
      EmptyHash(DeleteAll(h, fields));
      PutLive(live, replayed, k, v, now);
    }
  }

  lemma DeletedForm(h: HashRep, fields: seq<string>)
    requires WellFormed(h)
    ensures WellFormed(DeleteAll(h, fields)) && (h.MapRep? <==> DeleteAll(h, fields).MapRep?)
  {
    DeleteAllRefines(h, fields);
  }

  lemma {:induction false} NothingToDelete(h: HashRep, fields: seq<string>)
    requires WellFormed(h) && Fields(h) == map[]
    ensures DeletedCount(h, fields) == 0
    decreases |fields|
  {
    if fields != [] {
      DeleteRefines(h, fields[0]);
      assert Fields(h) - {fields[0]} == map[];
      NothingToDelete(DeleteField(h, fields[0]), fields[1..]);
    }
  }

  lemma SAddStep(live: Values, replayed: Values, args: Command, now: int, clock: int)
    requires InSync(live, replayed, now) && OpOf(args) == OpSAdd
    ensures StepInSync(live, replayed, args, now, clock)
  {
    hide OpOf, InSync, Elements, Matches, Droppable, At, KeyInSync;
    Arity(args);
    var k := args[1];
    KeySides(live, replayed, k, now);
    if k !in live || live[k].SetValue? {
      SomethingAdded(args);
      SAddSync(live, replayed, k, Elements(args[2..]), now);
    }
  }

  lemma SAddSync(live: Values, replayed: Values, k: string, added: set<string>, now: int)
    requires InSync(live, replayed, now) && (k in live ==> live[k].SetValue?) && added != {}
    ensures k in replayed ==> k in live && replayed[k] == live[k]
    ensures var before := if k in live then live[k].elements else {};
            var v := SetValue(before + added);
            && (k !in replayed ==> before == {})
            && |before + added| >= |before|
            && (if |before + added| > |before| then InSync(live[k := v], replayed[k := v], now)
                else k in live && InSync(live[k := v], replayed, now))
  {
    hide InSync;
    KeySides(live, replayed, k, now);
    var before := if k in live then live[k].elements else {};
    var v := SetValue(before + added);
    GrownSet(before, added);
    if |before + added| > |before| {
      PutBoth(live, replayed, k, v, v, now);
    } else {
      PutLive(live, replayed, k, v, now);
    }
  }

  lemma SomethingAdded(args: Command)
    requires |args| >= 3
    ensures Elements(args[2..]) != {}
  {
    assert args[2..][0] in Elements(args[2..]);
  }

  lemma GrownSet(before: set<string>, added: set<string>)
    ensures |before + added| >= |before|
    ensures |before + added| == |before| ==> before + added == before
    ensures before == {} && added != {} ==> |before + added| > |before|
  {
    assert before + added == before + (added - before);
  }

  lemma SDelStep(live: Values, replayed: Values, args: Command, now: int, clock: int)
    requires InSync(live, replayed, now) && OpOf(args) == OpSDel
    ensures StepInSync(live, replayed, args, now, clock)
  {
    hide OpOf, InSync, Elements, Matches, Droppable, At, KeyInSync;
    Arity(args);
    var k := args[1];
    KeySides(live, replayed, k, now);
    if k in live && live[k].SetValue? {
      SDelSync(live, replayed, k, Elements(args[2..]), now);
    }
  }

  lemma SDelSync(live: Values, replayed: Values, k: string, removed: set<string>, now: int)
    requires InSync(live, replayed, now) && k in live && live[k].SetValue?
    ensures k in replayed ==> replayed[k] == live[k]
    ensures var before := live[k].elements;
            var v := SetValue(before - removed);
            && |before| >= |before - removed|
            && (if |before| > |before - removed| then k in replayed && InSync(live[k := v], replayed[k := v], now)
                else InSync(live[k := v], replayed, now))
  {
    hide InSync;
    KeySides(live, replayed, k, now);
    var before := live[k].elements;
    var v := SetValue(before - removed);
    ShrunkSet(before, removed);
    if |before| > |before - removed| {
      PutBoth(live, replayed, k, v, v, now);
    } else {
      PutLive(live, replayed, k, v, now);
    }
  }

  lemma ShrunkSet(before: set<string>, removed: set<string>)
    ensures |before - removed| <= |before|
    ensures |before - removed| == |before| ==> before - removed == before
    ensures before == {} ==> |before - removed| == 0
  {
    assert before == (before - removed) + (before * removed);
  }

  /** Any command that the log can follow keeps the replay in step, whatever the
      clock says at replay time. */
  lemma StepKeepsSync(live: Values, replayed: Values, args: Command, now: int, clock: int)
    requires InSync(live, replayed, now) && LogFollows(live, replayed, args, now)
    ensures StepInSync(live, replayed, args, now, clock)
  {
    match OpOf(args)
    case OpSet => SetStep(live, replayed, args, now, clock);
    case OpGet =>
      if args[1] in live && ExpiredForGet(live[args[1]], now) {
        LazyExpiryInSyncIff(live, replayed, args, now, clock);
      }
    case OpRPush => PushStep(live, replayed, args, false, now, clock);
    case OpLPush => PushStep(live, replayed, args, true, now, clock);
    case OpLPop => PopStep(live, replayed, args, true, now, clock);
    case OpRPop => PopStep(live, replayed, args, false, now, clock);
    case OpDel => DelStep(live, replayed, args, now, clock);
    case OpHSet => HSetStep(live, replayed, args, now, clock);
    case OpHDel => HDelStep(live, replayed, args, now, clock);
    case OpSAdd => SAddStep(live, replayed, args, now, clock);
    case OpSDel => SDelStep(live, replayed, args, now, clock);
    case _ =>
  }

  /** ... and no other: whatever the command, the replay stays in step at every
      replay time exactly when the log can follow it. */
  lemma FollowsIff(live: Values, replayed: Values, args: Command, now: int)
    requires InSync(live, replayed, now)
    ensures (forall clock :: StepInSync(live, replayed, args, now, clock))
            <==> LogFollows(live, replayed, args, now)
  {
    hide StepInSync, InSync, ParseExpiry, Relative, LosesWrite, ExpiredForGet, OpOf;
    if LogFollows(live, replayed, args, now) {
      forall clock ensures StepInSync(live, replayed, args, now, clock) {
        StepKeepsSync(live, replayed, args, now, clock);
      }
    } else {
      match OpOf(args) {
        case OpSet => SetInSyncIff(live, replayed, args, now);
        case OpGet => LazyExpiryInSyncIff(live, replayed, args, now, now);
        case OpHSet => HSetInSyncIff(live, replayed, args, now, now);
      }
    }
  }

  /** For HSET: a write that is lost breaks it. */
  lemma HSetInSyncIff(live: Values, replayed: Values, args: Command, now: int, clock: int)
    requires InSync(live, replayed, now) && OpOf(args) == OpHSet
    ensures StepInSync(live, replayed, args, now, clock) <==> !LosesWrite(live, args)
  {
    hide OpOf;
    Arity(args);
    if LosesWrite(live, args) {
      hide WriteAll, CreatedCount, Pairs, Fields, WellFormed;
      var k := args[1];
      HashSides(live, replayed, k, now);
      WritesCreate(live[k].hash, args);
      KeySides(live, replayed, k, now);
      var after := Result(live, Apply(live, args, now).effect);
      assert !KeyInSync(At(after, k), At(replayed, k), now);
    } else {
      HSetStep(live, replayed, args, now, clock);
    }
  }

  /** A GET that deletes an expired key keeps the replay in step exactly when the
      log had already dropped that key. */
  lemma LazyExpiryInSyncIff(live: Values, replayed: Values, args: Command, now: int, clock: int)
    requires InSync(live, replayed, now) && OpOf(args) == OpGet
    requires args[1] in live && ExpiredForGet(live[args[1]], now)
    ensures StepInSync(live, replayed, args, now, clock) <==> args[1] !in replayed
  {
    var k := args[1];
    var after := Result(live, Apply(live, args, now).effect);
    assert after == live - {k};
    if k in replayed {
      assert !KeyInSync(At(after, k), At(replayed, k), now);
    } else {
      forall j ensures KeyInSync(At(after, j), At(replayed, j), now) {
        assert KeyInSync(At(live, j), At(replayed, j), now);
      }
    }
  }

  /** Right after a rewrite the replay is in step exactly when no string has a
      negative expiry. */
  lemma RewriteInSyncIff(db: Db, now: int)
    requires Consistent(db)
    ensures InSync(db.vals, Restored(db, now).vals, now)
            <==> forall k :: k in db.vals && db.vals[k].StringValue? ==> db.vals[k].expiry >= 0
  {
    var r := Restored(db, now).vals;
    assert db.order[..|db.order|] == db.order;
    forall k ensures KeyInSync(At(db.vals, k), At(r, k), now)
                     <==> !(k in db.vals && db.vals[k].StringValue? && db.vals[k].expiry < 0) {
      assert k in db.vals ==> k in db.order;
      if k in db.vals {
        RestoredKey(db.vals[k], now);
        DroppableIff(db.vals[k], now);
      }
    }
  }

  /** A rewrite leaves out exactly what may be left out. */
  lemma DroppableIff(v: Value, now: int)
    requires ValueOk(v)
    ensures Kept(v, now) <==> !Droppable(v, now)
  {
    if v.HashValue? { EmptyHash(v.hash); }
  }

  lemma RestoredKey(v: Value, now: int)
    requires ValueOk(v)
    ensures Kept(v, now) ==> (Matches(v, Reload(v)) <==> !(v.StringValue? && v.expiry < 0))
    ensures v.StringValue? && v.expiry < 0 ==> Kept(v, now)
  {
    if v.HashValue? { ReloadHash(v.hash); }
  }

  // ---------- whole runs ----------

  /** Store and log file of a running server. */
  datatype Sys = Sys(db: Db, log: string)

  /** A client's command, a rewrite of the log at a moment of its own, or a crash: the
      last bytes of the log file may be lost, and the server starts again from what is
      left. */
  datatype Turn = Client(args: Command, now: int) | Rewrite(now: int) | Crash(lost: nat, now: int)

  const FRESH := Sys(EMPTY, "")

  /** The store that replaying a log file builds. */
  ghost function Recovered(log: string, clock: int): Db {
    ExecAll(EMPTY, Feed(INITIAL, log).commands, clock)
  }

  /** What a crash leaves of a log file. */
  function Left(log: string, lost: nat): string {
    if lost <= |log| then log[..|log| - lost] else ""
  }

  ghost function Next(s: Sys, step: Turn): Sys {
    match step
    case Client(args, now) =>
      var effect := Apply(s.db.vals, args, now).effect;
      var out := Exec(s.db, args, now);
      var log := if effect == Wipe then "" else s.log;
      Sys(out.db, if out.success then Appended(log, args) else log)
    case Rewrite(now) => Sys(s.db, FormatAll(Dump(s.db.order, s.db.vals, now)))
    case Crash(lost, now) => Sys(Recovered(Left(s.log, lost), now), Left(s.log, lost))
  }

  ghost function Run(s: Sys, steps: seq<Turn>): Sys
    decreases |steps|
  {
    if steps == [] then s else Run(Next(s, steps[0]), steps[1..])
  }

  lemma {:induction false} RunConcat(s: Sys, a: seq<Turn>, b: seq<Turn>)
    ensures Run(s, a + b) == Run(Run(s, a), b)
    decreases |a|
  {
    hide Next;
    if a == [] {
      assert a + b == b;
    } else {
      assert (a + b)[1..] == a[1..] + b;
      RunConcat(Next(s, a[0]), a[1..], b);
    }
  }

  lemma RunOne(s: Sys, a: Turn)
    ensures Run(s, [a]) == Next(s, a) && Run(s, []) == s
  {
    assert [a][1..] == [];
  }

  ghost predicate NoNegativeExpiry(vals: Values) {
    forall k :: k in vals && vals[k].StringValue? ==> vals[k].expiry >= 0
  }

  /** The side conditions of durability, step by step: commands of a size the
      parser can hold that the log can follow and that evict nothing, no negative
      pop count, no negative expiry at a rewrite, and a crash only where the replay
      finds the file to end with a complete command. */
  ghost predicate StepOk(s: Sys, step: Turn) {
    match step
    case Client(args, now) =>
      Harmless(s, args, now) && LogFollows(s.db.vals, Recovered(s.log, now).vals, args, now)
    case Rewrite(now) => NoNegativeExpiry(s.db.vals)
    case Crash(lost, now) => Feed(INITIAL, Left(s.log, lost)).end == Some(INITIAL)
  }

  ghost predicate Harmless(s: Sys, args: Command, now: int) {
    && Sized(args)
    && PopsOk(s.db.vals, args)
    && Fits(Result(s.db.vals, Apply(s.db.vals, args, now).effect))
  }

  /** ... with a clock that does not go back. */
  ghost predicate RunOk(s: Sys, steps: seq<Turn>, now: int)
    decreases |steps|
  {
    steps == [] || (now <= steps[0].now && StepOk(s, steps[0])
                    && RunOk(Next(s, steps[0]), steps[1..], steps[0].now))
  }

  function Finish(steps: seq<Turn>, now: int): int {
    if steps == [] then now else steps[|steps| - 1].now
  }

  /** A command that does the same at every time. */
  predicate Clockless(args: Command) {
    OpOf(args) != OpGet && (OpOf(args) == OpSet ==> !Relative(args, 3, false))
  }

  predicate AllClockless(commands: seq<Command>) {
    forall i :: 0 <= i < |commands| ==> Clockless(commands[i])
  }

  /** The log is these commands, each of a size the parser can hold and none of them
      dependent on the clock; running them from scratch is safe and gives a store in
      step with the live one. */
  ghost predicate RecoverableBy(s: Sys, commands: seq<Command>, now: int) {
    && Consistent(s.db) && Fits(s.db.vals) && ExpiriesFit(s.db.vals)
    && (forall i :: 0 <= i < |commands| ==> Sized(commands[i]))
    && AllLogged(commands) && AllClockless(commands)
    && (forall clock :: SafeRun(EMPTY, commands, clock))
    && s.log == FormatAll(commands)
    && InSync(s.db.vals, ExecAll(EMPTY, commands, 0).vals, now)
  }

  lemma {:induction false} ExecAllKeepsCeiling(db: Db, commands: seq<Command>, clock: int)
    requires Consistent(db) && Fits(db.vals)
    ensures Consistent(ExecAll(db, commands, clock)) && Fits(ExecAll(db, commands, clock).vals)
    decreases |commands|
  {
    hide Exec, Consistent, Total;
    if commands != [] {
      ExecKeepsCeiling(db, commands[0], clock);
      ExecAllKeepsCeiling(Exec(db, commands[0], clock).db, commands[1..], clock);
    }
  }

  lemma {:induction false} ParsedExpiryFits(args: Command, i: nat, rel: bool, expiry: int, now: int)
    requires !rel ==> expiry <= LLONG_MAX
    ensures ParseExpiry(args, i, expiry, now).Some? && !Relative(args, i, rel) ==>
              ParseExpiry(args, i, expiry, now).value <= LLONG_MAX
    decreases |args| - i
  {
    hide ToUpper, ReadInteger;
    if i < |args| {
      var opt := ToUpper(args[i]);
      if (opt == "EX" || opt == "PX" || opt == "PXAT") && i + 1 < |args| {
        match Stoll(args[i + 1])
        case None =>
        case Some(n) =>
          var next := if opt == "EX" then now + n * 1000 else if opt == "PX" then now + n else n;
          ParsedExpiryFits(args, i + 2, opt != "PXAT", next, now);
      } else {
        ParsedExpiryFits(args, i + 1, rel, expiry, now);
      }
    }
  }

  lemma ExpiriesStayFit(db: Db, args: Command, now: int)
    requires ExpiriesFit(db.vals)
    requires OpOf(args) == OpSet && ParseExpiry(args, 3, 0, now).Some? ==> !Relative(args, 3, false)
    ensures ExpiriesFit(Result(db.vals, Apply(db.vals, args, now).effect))
  {
    hide ParseExpiry, Relative, OpOf, Elements;
    if OpOf(args) == OpSet {
      Arity(args);
      ParsedExpiryFits(args, 3, false, 0, now);
    } else {
      NoNewString(db.vals, args, now);
      hide Apply;
    }
  }

  lemma NoNewString(vals: Values, args: Command, now: int)
    requires OpOf(args) != OpSet
    ensures match Apply(vals, args, now).effect
            case Put(_, v) => !v.StringValue?
            case Create(_, _, v) => !v.StringValue?
            case _ => true
  {
    hide OpOf, PushAll, TakeItems, WriteAll, DeleteAll, CreatedCount, DeletedCount, Pairs, Elements, PresentCount,
         PopCount, Popped, Fields;
    Arity(args);
  }

  lemma ClocklessExpiry(db: Db, args: Command, clock: int)
    requires Consistent(db) && ExpiriesFit(db.vals) && Clockless(args)
    ensures ExpiriesFit(Exec(db, args, clock).db.vals)
  {
    hide Consistent, Apply, Settle, OpOf, Relative, ParseExpiry, Result;
    ExpiriesStayFit(db, args, clock);
    EffectOk(db, args, clock);
    SettlesWithin(db, Apply(db.vals, args, clock).effect);
  }

  lemma {:induction false} ReplayExpiries(db: Db, commands: seq<Command>, clock: int)
    requires Consistent(db) && Fits(db.vals) && ExpiriesFit(db.vals) && AllClockless(commands)
    ensures ExpiriesFit(ExecAll(db, commands, clock).vals)
    decreases |commands|
  {
    hide Consistent, Total, Exec, ExpiriesFit, Clockless;
    if commands != [] {
      ClocklessExpiry(db, commands[0], clock);
      ExecKeepsCeiling(db, commands[0], clock);
      ReplayExpiries(Exec(db, commands[0], clock).db, commands[1..], clock);
    }
  }

  lemma LoggedOps(vals: Values, args: Command, now: int)
    requires Apply(vals, args, now).success
    ensures args != [] && (IsLogged(ToUpper(args[0])) <==> Apply(vals, args, now).effect != Wipe)
    ensures Apply(vals, args, now).effect == Wipe <==> OpOf(args) == OpFlushDb
  {
    hide OpOf, Apply, IsLogged, ToUpper;
    NameIsLogged(args);
    SuccessfulOps(vals, args, now);
  }

  predicate Mutates(op: Op) {
    op.OpSet? || op.OpRPush? || op.OpLPush? || op.OpLPop? || op.OpRPop? || op.OpDel? || op.OpHSet? || op.OpHDel?
    || op.OpSAdd? || op.OpSDel?
  }

  lemma NameIsLogged(args: Command)
    ensures Mutates(OpOf(args)) ==> args != [] && IsLogged(ToUpper(args[0]))
    ensures OpOf(args) == OpFlushDb ==> args != [] && !IsLogged(ToUpper(args[0]))
  {
    hide ToUpper;
  }

  lemma SuccessfulOps(vals: Values, args: Command, now: int)
    requires Apply(vals, args, now).success
    ensures Mutates(OpOf(args)) || OpOf(args) == OpFlushDb
    ensures Apply(vals, args, now).effect == Wipe <==> OpOf(args) == OpFlushDb
  {
    hide OpOf, ParseExpiry, PushAll, TakeItems, WriteAll, DeleteAll, CreatedCount, DeletedCount, Pairs, Elements,
         PresentCount, PopCount, Popped, Fields;
    Arity(args);
  }

  /** A live command settles plainly, and so does its replay. */
  lemma ReplaySettles(live: Db, rep: Db, args: Command, now: int, clock: int)
    requires Consistent(live) && Fits(live.vals) && Consistent(rep) && Fits(rep.vals)
    requires InSync(live.vals, rep.vals, now)
    requires Fits(Result(live.vals, Apply(live.vals, args, now).effect))
    requires Apply(live.vals, args, now).success && Apply(live.vals, args, now).effect != Wipe
    ensures var f := Apply(rep.vals, args, clock).effect;
            Fits(Result(rep.vals, f)) && Settle(rep, f).vals == Result(rep.vals, f)
  {
    hide Consistent, Total, Apply, InSync, LogFollows, Result, Settle, OpOf;
    var e, f := Apply(live.vals, args, now).effect, Apply(rep.vals, args, clock).effect;
    EffectOk(live, args, now);
    EffectOk(rep, args, clock);
    if LogFollows(live.vals, rep.vals, args, now) {
      StepKeepsSync(live.vals, rep.vals, args, now, clock);
      SyncMemory(Result(live.vals, e), Result(rep.vals, f), now);
    } else {
      UnfollowedSet(live.vals, rep.vals, args, now);
      SetCosts(live.vals, rep.vals, args, now, clock);
    }
    SettlesPlainlyIff(rep, f);
  }

  /** Of the commands the log cannot follow only SET is logged. */
  lemma UnfollowedSet(live: Values, rep: Values, args: Command, now: int)
    requires !LogFollows(live, rep, args, now) && Apply(live, args, now).success
    ensures OpOf(args) == OpSet
  {
    hide OpOf, ParseExpiry, Relative, WriteAll, CreatedCount, Pairs, Fields;
    Arity(args);
  }

  /** A string costs the same whatever its expiry. */
  lemma SetCosts(live: Values, rep: Values, args: Command, now: int, clock: int)
    requires InSync(live, rep, now) && OpOf(args) == OpSet && Apply(live, args, now).success
    ensures Total(Result(rep, Apply(rep, args, clock).effect)) <= Total(Result(live, Apply(live, args, now).effect))
  {
    hide OpOf, ParseExpiry, InSync, Total, Relative;
    Arity(args);
    TwoClocks(args, 3, false, 0, 0, now, clock);
    var k := args[1];
    var v := StringValue(args[2], ParseExpiry(args, 3, 0, now).value);
    var w := StringValue(args[2], ParseExpiry(args, 3, 0, clock).value);
    PutBoth(live, rep, k, v, v, now);
    SyncMemory(live[k := v], rep[k := v], now);
    assert Result(rep, Apply(rep, args, clock).effect) == rep[k := w];
    TotalMonotone(rep[k := w], rep[k := v]);
  }

  /** A command that sets no relative expiry does the same at every time. */
  lemma Timeless(vals: Values, args: Command, now: int, clock: int)
    requires Clockless(args)
    ensures Apply(vals, args, now) == Apply(vals, args, clock)
  {
    hide OpOf, ParseExpiry, Relative, PushAll, TakeItems, WriteAll, DeleteAll, CreatedCount, DeletedCount, Pairs,
         Elements, PresentCount, PopCount, Popped, Fields;
    Arity(args);
    TwoClocks(args, 3, false, 0, 0, now, clock);
  }

  /** ... and so does a log of such commands. */
  lemma {:induction false} Steady(db: Db, commands: seq<Command>, now: int, clock: int)
    requires AllClockless(commands)
    ensures ExecAll(db, commands, now) == ExecAll(db, commands, clock)
    decreases |commands|
  {
    hide Apply, Settle, Clockless;
    if commands != [] {
      Timeless(db.vals, commands[0], now, clock);
      Steady(Exec(db, commands[0], now).db, commands[1..], now, clock);
    }
  }

  lemma ExecAllOne(db: Db, args: Command, clock: int)
    ensures ExecAll(db, [args], clock) == Exec(db, args, clock).db
  {
    assert [args][1..] == [];
  }

  lemma EmptyIsConsistent()
    ensures Consistent(EMPTY)
  {}

  lemma InSyncNothing(now: int)
    ensures InSync(map[], map[], now)
  {}

  /** The commands in the log after one more. */
  function Extended(commands: seq<Command>, args: Command, a: Applied): seq<Command> {
    if a.effect == Wipe then [] else if a.success then commands + [args] else commands
  }

  lemma LogRead(s: Sys, commands: seq<Command>, now: int, clock: int)
    requires RecoverableBy(s, commands, now)
    ensures Feed(INITIAL, s.log) == Fed(commands, Some(INITIAL))
    ensures Recovered(s.log, clock) == ExecAll(EMPTY, commands, 0)
  {
    hide Consistent, Total, InSync, ExecAll, ExpiriesFit, SafeRun, AllLogged, Sized, AllClockless;
    LogRoundTrip(commands);
    Steady(EMPTY, commands, clock, 0);
  }

  lemma ClientLog(s: Sys, commands: seq<Command>, args: Command, now: int)
    requires s.log == FormatAll(commands) && AllLogged(commands) && Sized(args)
    requires forall i :: 0 <= i < |commands| ==> Sized(commands[i])
    ensures var more := Extended(commands, args, Apply(s.db.vals, args, now));
            && Next(s, Client(args, now)).log == FormatAll(more)
            && (forall i :: 0 <= i < |more| ==> Sized(more[i])) && AllLogged(more)
  {
    hide Apply, Settle, Sized, Format, ToUpper, IsLogged;
    if Apply(s.db.vals, args, now).success {
      LoggedOps(s.db.vals, args, now);
      FormatAllConcat(commands, [args]);
      FormatOne(args);
    }
    WipeMeans(s.db, args, now);
  }

  /** At any time, the replay of the extended log is what StepInSync speaks about. */
  lemma ClientReplay(s: Sys, commands: seq<Command>, args: Command, now: int, clock: int)
    requires RecoverableBy(s, commands, now) && Harmless(s, args, now)
    ensures var a := Apply(s.db.vals, args, now);
            var rep := ExecAll(EMPTY, commands, 0);
            var more := Extended(commands, args, a);
            && Next(s, Client(args, now)).db.vals == Result(s.db.vals, a.effect)
            && ExecAll(EMPTY, more, clock).vals == Replayed(s.db.vals, rep.vals, args, now, clock)
            && ExecAll(EMPTY, more, clock)
               == (if a.effect == Wipe then EMPTY else if a.success then Exec(rep, args, clock).db else rep)
            && SafeRun(EMPTY, more, clock)
  {
    hide Consistent, Total, Apply, InSync, Settle, Sized, ExpiriesFit, SafeRun, AllLogged, OpOf, PopsOk,
         Result, EffectSafe, Clockless;
    var a := Apply(s.db.vals, args, now);
    var rep := ExecAll(EMPTY, commands, clock);
    EffectOk(s.db, args, now);
    SettlesPlainlyIff(s.db, a.effect);
    WipeMeans(s.db, args, now);
    SafeNone(EMPTY, clock);
    Steady(EMPTY, commands, clock, 0);
    if a.effect != Wipe && a.success {
      ReplayOk(commands, clock);
      LoggedOps(s.db.vals, args, now);
      ExecAllConcat(EMPTY, commands, [args], clock);
      ExecAllOne(rep, args, clock);
      ReplaySettles(s.db, rep, args, now, clock);
      EffectOk(rep, args, clock);
      FitsIsSafe(rep, Apply(rep.vals, args, clock).effect);
      PopsInSync(s.db.vals, rep.vals, args, now);
      SafeOne(rep, args, clock);
      SafeRunConcat(EMPTY, commands, [args], clock);
    }
  }

  lemma PopsInSync(live: Values, rep: Values, args: Command, now: int)
    requires InSync(live, rep, now) && PopsOk(live, args)
    ensures PopsOk(rep, args)
  {
    hide InSync;
    Arity(args);
    if |args| >= 2 { KeySides(live, rep, args[1], now); }
  }

  lemma ReplayOk(commands: seq<Command>, clock: int)
    ensures Consistent(ExecAll(EMPTY, commands, clock)) && Fits(ExecAll(EMPTY, commands, clock).vals)
  {
    TotalEmpty();
    EmptyIsConsistent();
    ExecAllKeepsCeiling(EMPTY, commands, clock);
  }

  lemma ClientClockless(s: Sys, commands: seq<Command>, args: Command, now: int)
    requires RecoverableBy(s, commands, now)
    requires LogFollows(s.db.vals, ExecAll(EMPTY, commands, 0).vals, args, now)
    ensures AllClockless(Extended(commands, args, Apply(s.db.vals, args, now)))
  {
    hide Consistent, Total, Apply, InSync, Sized, ExpiriesFit, SafeRun, AllLogged, ExecAll, LogFollows, Clockless;
    if Apply(s.db.vals, args, now).success {
      FollowedIsClockless(s.db.vals, ExecAll(EMPTY, commands, 0).vals, args, now);
    }
  }

  lemma FollowedIsClockless(live: Values, logged: Values, args: Command, now: int)
    requires LogFollows(live, logged, args, now) && Apply(live, args, now).success
    ensures Clockless(args)
  {
    hide OpOf, ParseExpiry, Relative;
    Arity(args);
  }

  lemma FollowedSet(live: Values, logged: Values, args: Command, now: int)
    requires LogFollows(live, logged, args, now)
    ensures OpOf(args) == OpSet && ParseExpiry(args, 3, 0, now).Some? ==> !Relative(args, 3, false)
  {
    hide OpOf, ParseExpiry, Relative;
  }

  lemma ClientKeeps(s: Sys, commands: seq<Command>, args: Command, now: int) returns (more: seq<Command>)
    requires RecoverableBy(s, commands, now) && StepOk(s, Client(args, now))
    ensures RecoverableBy(Next(s, Client(args, now)), more, now)
    ensures more == Extended(commands, args, Apply(s.db.vals, args, now))
  {
    hide Total, Apply, InSync, LogFollows, Settle, ExecAll, ExpiriesFit, SafeRun, AllLogged, OpOf, PopsOk,
         AllClockless, Result, Consistent, Sized, ParseExpiry, Relative;
    more := Extended(commands, args, Apply(s.db.vals, args, now));
    LogRead(s, commands, now, now);
    ExecKeepsCeiling(s.db, args, now);
    FollowedSet(s.db.vals, Recovered(s.log, now).vals, args, now);
    ExpiriesStayFit(s.db, args, now);
    LogIs(s, commands, now);
    ClientLog(s, commands, args, now);
    ClientClockless(s, commands, args, now);
    StepKeepsSync(s.db.vals, Recovered(s.log, now).vals, args, now, 0);
    forall clock ensures SafeRun(EMPTY, more, clock) {
      ClientReplay(s, commands, args, now, clock);
    }
    ClientReplay(s, commands, args, now, 0);
  }

  /** The side condition on a command is exact: after a harmless command, replaying
      the log is in step with the store at every time if and only if the log could
      follow the command. */
  lemma ClientDurableIff(s: Sys, commands: seq<Command>, args: Command, now: int)
    requires RecoverableBy(s, commands, now) && Harmless(s, args, now)
    ensures var t := Next(s, Client(args, now));
            (forall clock :: InSync(t.db.vals, Recovered(t.log, clock).vals, now))
            <==> LogFollows(s.db.vals, Recovered(s.log, now).vals, args, now)
  {
    hide Total, Apply, InSync, LogFollows, Settle, ExecAll, ExpiriesFit, SafeRun, AllLogged, OpOf, PopsOk,
         AllClockless, Result, Consistent, Sized, Replayed;
    var t := Next(s, Client(args, now));
    var more := Extended(commands, args, Apply(s.db.vals, args, now));
    var rep := Recovered(s.log, now);
    LogRead(s, commands, now, now);
    LogIs(s, commands, now);
    ClientLog(s, commands, args, now);
    LogRoundTrip(more);
    forall clock ensures InSync(t.db.vals, Recovered(t.log, clock).vals, now)
                         <==> StepInSync(s.db.vals, rep.vals, args, now, clock) {
      ClientReplay(s, commands, args, now, clock);
    }
    FollowsIff(s.db.vals, rep.vals, args, now);
  }

  lemma WipeMeans(db: Db, args: Command, now: int)
    ensures Apply(db.vals, args, now).effect == Wipe ==> Apply(db.vals, args, now).success
    ensures Settle(db, Wipe) == EMPTY
  {
    hide ParseExpiry, PushAll, TakeItems, WriteAll, DeleteAll, CreatedCount, DeletedCount, Pairs, Elements,
         PresentCount, PopCount, Popped, Fields, ToUpper;
  }

  lemma DumpedIsClockless(k: string, v: Value)
    requires ValueOk(v) && !EmptyCollection(v)
    ensures Clockless(DumpValue(k, v))
  {
    hide OpOf, HashPairs, Sorted, Flat, ToString;
    DumpedOp(k, v);
    CommandNames();
    if v.StringValue? {
      var args := DumpValue(k, v);
      if v.expiry > 0 {
        assert args == ["SET", k, v.text, "PXAT", ToString(v.expiry)];
        assert Relative(args, 3, false) == Relative(args, 5, false);
      } else {
        assert args == ["SET", k, v.text];
      }
    }
  }

  lemma {:induction false} DumpClockless(keys: seq<string>, vals: Values, now: int)
    requires forall k :: k in vals ==> ValueOk(vals[k])
    ensures AllClockless(Dump(keys, vals, now))
  {
    hide Clockless, DumpValue, EmptyCollection;
    if keys != [] {
      var k := keys[|keys| - 1];
      DumpClockless(keys[..|keys| - 1], vals, now);
      if k in vals && Kept(vals[k], now) { DumpedIsClockless(k, vals[k]); }
    }
  }

  /** The rewritten log as a program: it can be parsed and is safe, and running it at
      any time restores the store. */
  lemma RewriteProgram(db: Db, now: int) returns (more: seq<Command>)
    requires Consistent(db) && Fits(db.vals) && ExpiriesFit(db.vals)
    ensures more == Dump(db.order, db.vals, now)
    ensures (forall i :: 0 <= i < |more| ==> Sized(more[i])) && AllLogged(more) && AllClockless(more)
    ensures forall clock :: ExecAll(EMPTY, more, clock) == Restored(db, now) && SafeRun(EMPTY, more, clock)
  {
    hide Total, Sized, ExecAll, Dump, Restored, SafeRun, AllLogged, AllClockless;
    DumpClockless(db.order, db.vals, now);
    more := Dump(db.order, db.vals, now);
    DumpSized(db.order, db.vals, now);
    assert db.order[..|db.order|] == db.order;
    forall clock ensures ExecAll(EMPTY, more, clock) == Restored(db, now) && SafeRun(EMPTY, more, clock) {
      RewriteRebuilds(db, now, clock);
      RewriteIsSafe(db, now, clock, |db.order|);
    }
    RewriteIsSafe(db, now, 0, |db.order|);
  }

  lemma RewriteKeeps(s: Sys, commands: seq<Command>, now: int) returns (more: seq<Command>)
    requires RecoverableBy(s, commands, now) && StepOk(s, Rewrite(now))
    ensures RecoverableBy(Next(s, Rewrite(now)), more, now)
  {
    hide Total, Sized, ExecAll, InSync, Dump, Restored, SafeRun, AllLogged, AllClockless;
    more := RewriteProgram(s.db, now);
    RewriteInSyncIff(s.db, now);
  }

  /** The side condition on a rewrite is exact. */
  lemma RewriteDurableIff(s: Sys, commands: seq<Command>, now: int)
    requires RecoverableBy(s, commands, now)
    ensures var t := Next(s, Rewrite(now));
            (forall clock :: InSync(t.db.vals, Recovered(t.log, clock).vals, now))
            <==> NoNegativeExpiry(s.db.vals)
  {
    hide Total, Sized, ExecAll, InSync, Restored, SafeRun, AllLogged, Dump;
    var t := Next(s, Rewrite(now));
    var more := RewriteProgram(s.db, now);
    LogRoundTrip(more);
    RewriteInSyncIff(s.db, now);
    assert forall clock :: Recovered(t.log, clock) == Restored(s.db, now);
    assert InSync(t.db.vals, Recovered(t.log, 0).vals, now) <==> NoNegativeExpiry(s.db.vals);
  }

  lemma RewriteRebuilds(db: Db, now: int, clock: int)
    requires Consistent(db) && Fits(db.vals) && ExpiriesFit(db.vals)
    ensures ExecAll(EMPTY, Dump(db.order, db.vals, now), clock) == Restored(db, now)
  {
    hide Total, ExecAll, Dump, RestoredUpTo;
    ReplayRebuilds(db, now, clock, |db.order|);
    assert db.order[..|db.order|] == db.order;
  }

  lemma InSyncItself(vals: Values, now: int)
    requires forall k :: k in vals ==> ValueOk(vals[k])
    ensures InSync(vals, vals, now)
  {
    forall k ensures KeyInSync(At(vals, k), At(vals, k), now) {}
  }

  /** A store that a log has built is recoverable by it. */
  lemma ReplayedIsRecoverable(commands: seq<Command>, at: int, now: int)
    requires forall i :: 0 <= i < |commands| ==> Sized(commands[i])
    requires AllLogged(commands) && AllClockless(commands) && forall clock :: SafeRun(EMPTY, commands, clock)
    ensures RecoverableBy(Sys(ExecAll(EMPTY, commands, at), FormatAll(commands)), commands, now)
  {
    hide Total, ExecAll, SafeRun, InSync, AllLogged, AllClockless, Sized;
    ReplayOk(commands, at);
    Steady(EMPTY, commands, at, 0);
    TotalEmpty();
    EmptyIsConsistent();
    ReplayExpiries(EMPTY, commands, at);
    InSyncItself(ExecAll(EMPTY, commands, at).vals, now);
  }

  lemma CrashKeeps(s: Sys, commands: seq<Command>, lost: nat, now: int) returns (more: seq<Command>)
    requires RecoverableBy(s, commands, now) && StepOk(s, Crash(lost, now))
    ensures RecoverableBy(Next(s, Crash(lost, now)), more, now)
  {
    hide Total, ExecAll, SafeRun, InSync, AllLogged, Clockless, Sized, Consistent, ExpiriesFit, FormatAll, Feed,
         Whole, RecoverableBy;
    LogIs(s, commands, now);
    var n := |Left(s.log, lost)|;
    TornLog(commands, n);
    IntactIff(commands, n);
    more := commands[..Whole(commands, n)];
    assert Left(s.log, lost) == s.log[..n];
    SomeOfLog(s, commands, now, |more|);
    ReplayedIsRecoverable(more, now, now);
  }

  lemma LogIs(s: Sys, commands: seq<Command>, now: int)
    requires RecoverableBy(s, commands, now)
    ensures s.log == FormatAll(commands) && AllLogged(commands)
    ensures forall i :: 0 <= i < |commands| ==> Sized(commands[i])
  {
    hide Total, ExecAll, SafeRun, InSync, Sized, Consistent, ExpiriesFit, AllLogged;
  }

  /** Part of a log is as harmless as the whole. */
  lemma SomeOfLog(s: Sys, commands: seq<Command>, now: int, k: nat)
    requires RecoverableBy(s, commands, now) && k <= |commands|
    ensures var some := commands[..k];
            && (forall i :: 0 <= i < |some| ==> Sized(some[i]))
            && AllLogged(some) && AllClockless(some) && forall clock :: SafeRun(EMPTY, some, clock)
  {
    hide Total, ExecAll, SafeRun, InSync, Clockless, Sized, Consistent, ExpiriesFit, ToUpper, IsLogged, FormatAll;
    forall clock ensures SafeRun(EMPTY, commands[..k], clock) {
      assert commands[..k] + commands[k..] == commands;
      SafeRunPrefix(EMPTY, commands[..k], commands[k..], clock);
    }
  }

  lemma LaterKeeps(s: Sys, commands: seq<Command>, now: int, later: int)
    requires RecoverableBy(s, commands, now) && now <= later
    ensures RecoverableBy(s, commands, later)
  {
    hide Consistent, Total, ExecAll, Sized, SafeRun, AllLogged, AllClockless, ExpiriesFit, InSync;
    SyncLater(s.db.vals, ExecAll(EMPTY, commands, 0).vals, now, later);
  }

  lemma StepKeeps(s: Sys, commands: seq<Command>, step: Turn, now: int) returns (more: seq<Command>)
    requires RecoverableBy(s, commands, now) && now <= step.now && StepOk(s, step)
    ensures RecoverableBy(Next(s, step), more, step.now)
    ensures step.Client? ==> more == Extended(commands, step.args, Apply(s.db.vals, step.args, step.now))
  {
    hide RecoverableBy, StepOk, Next, Apply;
    LaterKeeps(s, commands, now, step.now);
    match step {
      case Client(args, at) =>
        more := ClientKeeps(s, commands, args, at);
      case Rewrite(at) =>
        more := RewriteKeeps(s, commands, at);
      case Crash(lost, at) =>
        more := CrashKeeps(s, commands, lost, at);
    }
  }

  lemma {:induction false} RunKeeps(s: Sys, commands: seq<Command>, steps: seq<Turn>, now: int)
    returns (more: seq<Command>)
    requires RecoverableBy(s, commands, now) && RunOk(s, steps, now)
    ensures RecoverableBy(Run(s, steps), more, Finish(steps, now))
    decreases |steps|
  {
    hide RecoverableBy, StepOk, Next;
    more := commands;
    if steps != [] {
      more := StepKeeps(s, commands, steps[0], now);
      more := RunKeeps(Next(s, steps[0]), more, steps[1..], steps[0].now);
    }
  }

  lemma FreshIsRecoverable(now: int)
    ensures RecoverableBy(FRESH, [], now)
  {
    hide Total, InSync, Consistent;
    TotalEmpty();
    EmptyIsConsistent();
    InSyncNothing(now);
  }

  /** Durability. From an empty server with an empty log, after any run of commands,
      rewrites and crashes that meets the side conditions, the log file parses to
      its last byte, its commands can be replayed safely, and executing them on an
      empty store gives, at any time, one and the same store, which agrees with the
      live one on every key but those it may drop. */
  lemma RunIsDurable(steps: seq<Turn>, start: int, clock: int)
    requires RunOk(FRESH, steps, start)
    ensures var s := Run(FRESH, steps);
            var fed := Feed(INITIAL, s.log);
            && fed.end == Some(INITIAL)
            && AllLogged(fed.commands) && SafeRun(EMPTY, fed.commands, clock)
            && Recovered(s.log, clock) == Recovered(s.log, 0)
            && InSync(s.db.vals, Recovered(s.log, clock).vals, Finish(steps, start))
  {
    hide InSync, RunOk, Run, Consistent, Sized, ExecAll, SafeRun, AllLogged, Total, ExpiriesFit;
    FreshIsRecoverable(start);
    var commands := RunKeeps(FRESH, [], steps, start);
    LogRead(Run(FRESH, steps), commands, Finish(steps, start), clock);
    LogRead(Run(FRESH, steps), commands, Finish(steps, start), 0);
  }

}

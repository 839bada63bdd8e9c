/** Logs that give back the store exactly, recency order included, through any number
    of evictions: which commands keep a log exact, and a run that does not. */
module Exact {
  import opened Text
  import opened Costs
  import opened Hash
  import opened Keyspace
  import opened Commands
  import opened Resp
  import opened Aof
  import opened Replay
  import opened Durability

  // ---------- what leaves a store as it is ----------

  /** An effect that does not show: nothing is written but what is there, and no key
      moves. */
  predicate Unchanged(db: Db, effect: Effect) {
    match effect
    case Keep => true
    case Bump(k) => k in db.vals ==> Newest(db, k)
    case Delete(keys) => forall k :: k in keys ==> k !in db.vals
    case Put(k, v) => k in db.vals && db.vals[k] == v && Newest(db, k)
    case _ => false
  }

  lemma TouchNewest(db: Db, k: string)
    requires Consistent(db) && k in db.vals
    ensures Touch(db, k) == db <==> Newest(db, k)
  {
    if Newest(db, k) {
      WithoutAt(db.order, |db.order| - 1);
      assert db.order[..|db.order| - 1] + db.order[|db.order|..] + [k] == db.order;
    }
  }

  lemma {:induction false} RemoveNothing(db: Db, keys: seq<string>)
    requires Consistent(db) && forall k :: k in keys ==> k !in db.vals
    ensures RemoveAll(db, keys) == db
    decreases |keys|
  {
    if keys != [] {
      WithoutIs(db.order, keys[0]);
      assert db.vals - {keys[0]} == db.vals;
      RemoveNothing(db, keys[1..]);
    }
  }

  /** Written over in place, a store that fits is the same as before exactly when the
      value is the old one and the key the newest. */
  lemma PutUnchanged(db: Db, k: string, v: Value)
    requires Consistent(db) && Fits(db.vals) && k in db.vals && ValueOk(v)
    ensures Settle(db, Put(k, v)) == db <==> db.vals[k] == v && Newest(db, k)
  {
    hide Total, Consistent, Newest, Without;
    WriteConsistent(db, k, v);
    EvictionDropsPrefix(Write(db, k, v));
    TouchNewest(db, k);
    if db.vals[k] == v {
      assert Write(db, k, v) == db;
      assert EvictToFit(db) == db;
    }
  }

  lemma UnchangedIff(db: Db, effect: Effect)
    requires Consistent(db) && Fits(db.vals) && EffectFor(db.vals, effect)
    requires !effect.Wipe? && !effect.Create? && (effect.Put? ==> effect.key in db.vals)
    ensures Settle(db, effect) == db <==> Unchanged(db, effect)
  {
    hide Total, Consistent, EvictToFit, Newest;
    match effect
    case Keep =>
    case Bump(k) => if k in db.vals { TouchNewest(db, k); }
    case Put(k, v) => PutUnchanged(db, k, v);
    case Delete(keys) =>
      if Unchanged(db, effect) {
        RemoveNothing(db, keys);
      } else {
        var k :| k in keys && k in db.vals;
        RemoveAllConsistent(db, keys);
        assert k in Elements(keys);
      }
  }

  /** A command that is not logged never makes a new key. */
  lemma UnloggedEffect(vals: Values, args: Command, now: int)
    requires !Apply(vals, args, now).success
    ensures var e := Apply(vals, args, now).effect;
            !e.Wipe? && !e.Create? && (e.Put? ==> e.key in vals)
  {
    hide OpOf, ParseExpiry, PushAll, TakeItems, WriteAll, DeleteAll, CreatedCount, DeletedCount, Pairs, Elements,
         PresentCount, PopCount, Popped, Fields;
    Arity(args);
    if OpOf(args) == OpHSet {
      FieldsOfNone();
      WritesCreate(EMPTY_HASH, args);
    }
    if OpOf(args) == OpSAdd {
      SomethingAdded(args);
      GrownSet({}, Elements(args[2..]));
    }
  }

  lemma FieldsOfNone()
    ensures Fields(EMPTY_HASH) == map[]
  {}

  // ---------- what the log repeats ----------

  /** A new key that does not survive its own arrival. */
  ghost predicate Vanishes(db: Db, effect: Effect) {
    effect.Put? && effect.key !in db.vals && NodeMem(effect.key, effect.value) > LRU_MAX_MEMORY
  }

  /** Commands after which the log is exact: those that are logged and do not depend on
      the clock, or not on the store they leave; and those that are not logged and
      change nothing, not even the recency of a key. */
  ghost predicate Repeats(db: Db, args: Command, now: int) {
    var a := Apply(db.vals, args, now);
    if a.effect == Wipe then true
    else if a.success then OpOf(args) == OpSet && Relative(args, 3, false) ==> Vanishes(db, a.effect)
    else Unchanged(db, a.effect)
  }

  /** A key too large for the store takes every other with it. */
  lemma VanishedStore(db: Db, effect: Effect)
    requires Consistent(db) && EffectFor(db.vals, effect) && Vanishes(db, effect)
    ensures Settle(db, effect) == EMPTY
  {
    hide Total;
    var k, v := effect.key, effect.value;
    var grown := Append(db, k, v);
    AppendConsistent(db, k, v);
    EvictionDropsPrefix(grown);
    NewKeySurvivesIff(db, k, v);
    LastOfSuffix(grown.order, Evicted(grown));
    assert EvictToFit(grown).order == [];
  }

  /** A key that is set, and was there before or fits, is there afterwards. */
  lemma SetStays(db: Db, k: string, v: Value)
    requires Consistent(db) && ValueOk(v) && EffectSafe(db, Put(k, v)) && !Vanishes(db, Put(k, v))
    ensures var vals := Settle(db, Put(k, v)).vals; k in vals && vals[k] == v
  {
    hide Total, EvictToFit, Consistent;
    if k in db.vals {
      WriteConsistent(db, k, v);
      EvictionWithin(Write(db, k, v));
    } else {
      NewKeySurvivesIff(db, k, v);
      AppendConsistent(db, k, v);
      EvictionWithin(Append(db, k, v));
    }
  }

  /** What a SET does at two times. */
  lemma SetEffects(db: Db, args: Command, now: int, clock: int)
    requires OpOf(args) == OpSet && Apply(db.vals, args, now).success
    ensures var v, w := Apply(db.vals, args, now).effect, Apply(db.vals, args, clock).effect;
            && v.Put? && w.Put? && v.key == w.key && v.value.StringValue? && w.value.StringValue?
            && v.value.text == w.value.text
            && v.value.expiry - w.value.expiry == if Relative(args, 3, false) then now - clock else 0
  {
    hide OpOf, ParseExpiry, Relative;
    Arity(args);
    TwoClocks(args, 3, false, 0, 0, now, clock);
  }

  /** A logged command leaves the same store at every time exactly when it sets no
      relative expiry, or sets it on a key that does not stay. */
  lemma SameAlwaysIff(db: Db, args: Command, now: int)
    requires Consistent(db) && Safe(db, args, now) && Apply(db.vals, args, now).success
    ensures (forall clock :: Exec(db, args, clock).db == Exec(db, args, now).db) <==>
            (OpOf(args) == OpSet && Relative(args, 3, false) ==> Vanishes(db, Apply(db.vals, args, now).effect))
  {
    hide Apply, OpOf, Relative, Settle, Consistent, PopsOk, EffectSafe, Vanishes;
    LoggedIsNotGet(db.vals, args, now);
    if OpOf(args) != OpSet || !Relative(args, 3, false) {
      forall clock ensures Exec(db, args, clock).db == Exec(db, args, now).db {
        Timeless(db.vals, args, clock, now);
      }
    } else if Vanishes(db, Apply(db.vals, args, now).effect) {
      forall clock ensures Exec(db, args, clock).db == Exec(db, args, now).db {
        VanishesAlways(db, args, now, clock);
        EffectOk(db, args, now);
        EffectOk(db, args, clock);
        VanishedStore(db, Apply(db.vals, args, now).effect);
        VanishedStore(db, Apply(db.vals, args, clock).effect);
      }
    } else {
      RelativeShows(db, args, now);
    }
  }

  lemma LoggedIsNotGet(vals: Values, args: Command, now: int)
    requires Apply(vals, args, now).success
    ensures OpOf(args) != OpGet
  {
    hide OpOf;
  }

  lemma VanishesAlways(db: Db, args: Command, now: int, clock: int)
    requires OpOf(args) == OpSet && Apply(db.vals, args, now).success
    ensures Vanishes(db, Apply(db.vals, args, now).effect) <==> Vanishes(db, Apply(db.vals, args, clock).effect)
  {
    hide OpOf, Apply;
    SetEffects(db, args, now, clock);
  }

  lemma RelativeShows(db: Db, args: Command, now: int)
    requires Consistent(db) && EffectSafe(db, Apply(db.vals, args, now).effect)
    requires OpOf(args) == OpSet && Relative(args, 3, false) && Apply(db.vals, args, now).success
    requires !Vanishes(db, Apply(db.vals, args, now).effect)
    ensures Exec(db, args, now + 1).db != Exec(db, args, now).db
  {
    hide OpOf, Apply, Relative, Settle, Consistent, EvictToFit;
    SetEffects(db, args, now, now + 1);
    var e, f := Apply(db.vals, args, now).effect, Apply(db.vals, args, now + 1).effect;
    SetStays(db, e.key, e.value);
    if Settle(db, f) == Settle(db, e) {
      EffectOk(db, args, now + 1);
      SettlesWithin(db, f);
    }
  }

  // ---------- exact logs ----------

  /** Up to its k-th command a log builds one and the same store at every time. */
  ghost predicate SteadyAt(commands: seq<Command>, k: nat)
    requires k <= |commands|
  {
    && (forall clock :: ExecAll(EMPTY, commands[..k], clock) == ExecAll(EMPTY, commands[..k], 0))
    && ExpiriesFit(ExecAll(EMPTY, commands[..k], 0).vals)
  }

  /** The log is these commands, and they build this very store at every time. */
  ghost predicate Exactly(s: Sys, commands: seq<Command>) {
    && s.log == FormatAll(commands)
    && (forall i :: 0 <= i < |commands| ==> Sized(commands[i])) && AllLogged(commands)
    && (forall clock :: SafeRun(EMPTY, commands, clock))
    && (forall k :: 0 <= k <= |commands| ==> SteadyAt(commands, k))
    && s.db == ExecAll(EMPTY, commands, 0)
  }

  lemma ExactFacts(s: Sys, commands: seq<Command>, clock: int)
    requires Exactly(s, commands)
    ensures Consistent(s.db) && Fits(s.db.vals) && ExpiriesFit(s.db.vals)
    ensures ExecAll(EMPTY, commands, clock) == s.db && SafeRun(EMPTY, commands, clock)
    ensures Feed(INITIAL, s.log) == Fed(commands, Some(INITIAL))
  {
    hide Consistent, Total, ExecAll, ExpiriesFit, SafeRun, AllLogged, Sized, Feed;
    ReplayOk(commands, 0);
    LogRoundTrip(commands);
    assert commands[..|commands|] == commands;
    assert SteadyAt(commands, |commands|);
  }

  /** What replaying the log gives after one more command. */
  lemma ExactReplay(s: Sys, commands: seq<Command>, args: Command, now: int, clock: int)
    requires Exactly(s, commands) && Sized(args)
    ensures var a := Apply(s.db.vals, args, now);
            var t := Next(s, Client(args, now));
            var more := Extended(commands, args, a);
            && t.log == FormatAll(more) && AllLogged(more)
            && (forall i :: 0 <= i < |more| ==> Sized(more[i]))
            && Recovered(t.log, clock) == ExecAll(EMPTY, more, clock)
            && ExecAll(EMPTY, more, clock)
               == (if a.effect == Wipe then EMPTY else if a.success then Exec(s.db, args, clock).db else s.db)
  {
    hide Consistent, Total, Apply, Settle, Sized, ExpiriesFit, SafeRun, AllLogged, ExecAll, Feed, SteadyAt, Exec;
    ExactFacts(s, commands, clock);
    var more := Extended(commands, args, Apply(s.db.vals, args, now));
    ClientLog(s, commands, args, now);
    LogRoundTrip(more);
    RunNothing(clock);
    ExecAllConcat(EMPTY, commands, [args], clock);
    ExecAllOne(s.db, args, clock);
  }

  lemma RunNothing(clock: int)
    ensures ExecAll(EMPTY, [], clock) == EMPTY
  {}

  /** After a command the log is exact, at every time, if and only if the command is one
      that the log repeats. */
  lemma ExactIff(s: Sys, commands: seq<Command>, args: Command, now: int)
    requires Exactly(s, commands) && Sized(args) && Safe(s.db, args, now)
    ensures var t := Next(s, Client(args, now));
            (forall clock :: Recovered(t.log, clock) == t.db) <==> Repeats(s.db, args, now)
  {
    hide Consistent, Total, Apply, Settle, Sized, ExpiriesFit, SafeRun, AllLogged, ExecAll, Safe, Unchanged,
         Vanishes, OpOf, Relative, Extended, Exactly, Recovered;
    var a := Apply(s.db.vals, args, now);
    var t := Next(s, Client(args, now));
    ExactFacts(s, commands, now);
    EffectOk(s.db, args, now);
    WipeMeans(s.db, args, now);
    forall clock ensures Recovered(t.log, clock) ==
                         (if a.effect == Wipe then EMPTY else if a.success then Exec(s.db, args, clock).db else s.db) {
      ExactReplay(s, commands, args, now, clock);
    }
    if a.success {
      SameAlwaysIff(s.db, args, now);
    } else {
      UnloggedEffect(s.db.vals, args, now);
      UnchangedIff(s.db, a.effect);
      assert Recovered(t.log, now) == s.db;
    }
  }

  // ---------- exact runs ----------

  /** A store that a rewrite writes down as it is. */
  ghost predicate Faithful(vals: Values, now: int) {
    forall k :: k in vals ==> Kept(vals[k], now) && Reload(vals[k]) == vals[k]
  }

  lemma {:induction false} KeptInOrder(keys: seq<string>, vals: Values, now: int)
    requires forall k :: k in keys ==> k in vals && Kept(vals[k], now)
    ensures KeptKeys(keys, vals, now) == keys
  {
    hide Kept;
    if keys != [] {
      KeptInOrder(keys[..|keys| - 1], vals, now);
      assert keys[..|keys| - 1] + [keys[|keys| - 1]] == keys;
    }
  }

  lemma RestoredIff(db: Db, now: int)
    requires Consistent(db)
    ensures Restored(db, now) == db <==> Faithful(db.vals, now)
  {
    hide Kept, Reload;
    assert db.order[..|db.order|] == db.order;
    if Faithful(db.vals, now) {
      KeptInOrder(db.order, db.vals, now);
      assert Restored(db, now).vals == db.vals;
    } else {
      var k :| k in db.vals && !(Kept(db.vals[k], now) && Reload(db.vals[k]) == db.vals[k]);
      assert k in Restored(db, now).vals ==> Restored(db, now).vals[k] == Reload(db.vals[k]) && Kept(db.vals[k], now);
    }
  }

  /** The steps that keep a log exact. */
  ghost predicate StepExact(s: Sys, step: Turn) {
    match step
    case Client(args, now) => Sized(args) && Safe(s.db, args, now) && Repeats(s.db, args, now)
    case Rewrite(now) => Faithful(s.db.vals, now)
    case Crash(lost, now) => Feed(INITIAL, Left(s.log, lost)).end == Some(INITIAL)
  }

  ghost predicate RunExact(s: Sys, steps: seq<Turn>)
    decreases |steps|
  {
    steps == [] || (StepExact(s, steps[0]) && RunExact(Next(s, steps[0]), steps[1..]))
  }

  lemma SteadyExtends(commands: seq<Command>, args: Command)
    requires forall k :: 0 <= k <= |commands| ==> SteadyAt(commands, k)
    requires SteadyAt(commands + [args], |commands| + 1)
    ensures forall k :: 0 <= k <= |commands| + 1 ==> SteadyAt(commands + [args], k)
  {
    hide ExecAll, ExpiriesFit;
    forall k | 0 <= k <= |commands| ensures SteadyAt(commands + [args], k) {
      assert (commands + [args])[..k] == commands[..k];
      assert SteadyAt(commands, k);
    }
  }

  lemma RepeatedExpiries(db: Db, args: Command, now: int)
    requires Consistent(db) && ExpiriesFit(db.vals) && Repeats(db, args, now)
    ensures ExpiriesFit(Exec(db, args, now).db.vals)
  {
    hide Consistent, Apply, Settle, OpOf, Relative, Vanishes;
    var a := Apply(db.vals, args, now);
    EffectOk(db, args, now);
    WipeMeans(db, args, now);
    if a.success && a.effect != Wipe {
      LoggedIsNotGet(db.vals, args, now);
      if Vanishes(db, a.effect) { VanishedStore(db, a.effect); } else { ClocklessExpiry(db, args, now); }
    } else if a.effect != Wipe {
      assert Unchanged(db, a.effect);
      UnchangedExpiries(db, a.effect);
    }
  }

  lemma UnchangedExpiries(db: Db, effect: Effect)
    requires Consistent(db) && EffectFor(db.vals, effect) && Unchanged(db, effect) && ExpiriesFit(db.vals)
    ensures ExpiriesFit(Settle(db, effect).vals)
  {
    hide Consistent, Settle, Newest;
    SettlesWithin(db, effect);
  }

  lemma SafeAlways(db: Db, args: Command, now: int, clock: int)
    requires Safe(db, args, now) && Repeats(db, args, now) && Apply(db.vals, args, now).success
    requires Apply(db.vals, args, now).effect != Wipe
    ensures Safe(db, args, clock)
  {
    hide Apply, OpOf, Relative, PopsOk;
    LoggedIsNotGet(db.vals, args, now);
    if OpOf(args) == OpSet && Relative(args, 3, false) {
      SetEffects(db, args, now, clock);
    } else {
      Timeless(db.vals, args, now, clock);
    }
  }

  lemma ClientExact(s: Sys, commands: seq<Command>, args: Command, now: int)
    requires Exactly(s, commands) && StepExact(s, Client(args, now))
    ensures Exactly(Next(s, Client(args, now)), Extended(commands, args, Apply(s.db.vals, args, now)))
  {
    hide Consistent, Total, Apply, Settle, Sized, ExpiriesFit, SafeRun, AllLogged, ExecAll, Safe, Repeats, Recovered,
         SteadyAt, Feed, Exec;
    var a := Apply(s.db.vals, args, now);
    var t, more := Next(s, Client(args, now)), Extended(commands, args, a);
    ExactFacts(s, commands, 0);
    ExactReplay(s, commands, args, now, 0);
    ExactIff(s, commands, args, now);
    assert Recovered(t.log, 0) == t.db;
    WipeMeans(s.db, args, now);
    if a.effect == Wipe {
      NothingIsExact();
    } else if a.success {
      ExtendedExactly(s, commands, args, now);
    }
  }

  lemma NothingIsExact()
    ensures Exactly(FRESH, [])
  {
    var none: seq<Command> := [];
    assert none[..0] == none;
    NoExpiries();
  }

  lemma ExtendedExactly(s: Sys, commands: seq<Command>, args: Command, now: int)
    requires Exactly(s, commands) && StepExact(s, Client(args, now))
    requires Apply(s.db.vals, args, now).success && Apply(s.db.vals, args, now).effect != Wipe
    ensures var more := commands + [args];
            && (forall clock :: SafeRun(EMPTY, more, clock))
            && (forall k :: 0 <= k <= |more| ==> SteadyAt(more, k))
  {
    hide Consistent, Total, Apply, Settle, Sized, ExpiriesFit, SafeRun, AllLogged, ExecAll, Safe, Repeats, Feed,
         Exec;
    var more := commands + [args];
    assert args != [] by { NamedCommand(args); }
    ExactFacts(s, commands, now);
    forall clock ensures SafeRun(EMPTY, more, clock) {
      ExactFacts(s, commands, clock);
      SafeAlways(s.db, args, now, clock);
      SafeOne(s.db, args, clock);
      SafeRunConcat(EMPTY, commands, [args], clock);
    }
    assert more[..|more|] == more;
    forall clock ensures ExecAll(EMPTY, more, clock) == ExecAll(EMPTY, more, 0) == Exec(s.db, args, now).db {
      ExactReplay(s, commands, args, now, clock);
      ExactReplay(s, commands, args, now, 0);
      RepeatedStore(s.db, args, now, clock);
      RepeatedStore(s.db, args, now, 0);
    }
    RepeatedExpiries(s.db, args, now);
    assert SteadyAt(more, |commands| + 1);
    SteadyExtends(commands, args);
  }

  lemma NamedCommand(args: Command)
    requires Sized(args)
    ensures args != []
  {}

  lemma RepeatedStore(db: Db, args: Command, now: int, clock: int)
    requires Consistent(db) && Safe(db, args, now) && Repeats(db, args, now)
    requires Apply(db.vals, args, now).success && Apply(db.vals, args, now).effect != Wipe
    ensures Exec(db, args, clock).db == Exec(db, args, now).db
  {
    hide Consistent, Apply, Settle, Safe, OpOf, Relative, Vanishes, Exec;
    SameAlwaysIff(db, args, now);
  }

  lemma ClocklessIsSteady(commands: seq<Command>)
    requires AllClockless(commands)
    ensures forall k :: 0 <= k <= |commands| ==> SteadyAt(commands, k)
  {
    hide ExecAll, ExpiriesFit, Consistent, Total, Clockless;
    TotalEmpty();
    EmptyIsConsistent();
    NoExpiries();
    forall k | 0 <= k <= |commands| ensures SteadyAt(commands, k) {
      forall clock ensures ExecAll(EMPTY, commands[..k], clock) == ExecAll(EMPTY, commands[..k], 0) {
        Steady(EMPTY, commands[..k], clock, 0);
      }
      ReplayExpiries(EMPTY, commands[..k], 0);
    }
  }

  lemma NoExpiries()
    ensures ExpiriesFit(map[])
  {}

  lemma RewriteExact(s: Sys, commands: seq<Command>, now: int) returns (more: seq<Command>)
    requires Exactly(s, commands) && StepExact(s, Rewrite(now))
    ensures Exactly(Next(s, Rewrite(now)), more)
  {
    hide Consistent, Total, Sized, ExpiriesFit, SafeRun, AllLogged, ExecAll, SteadyAt, Feed, Faithful, Restored,
         Dump, AllClockless;
    ExactFacts(s, commands, 0);
    more := RewriteProgram(s.db, now);
    RestoredIff(s.db, now);
    ClocklessIsSteady(more);
  }

  lemma CrashExact(s: Sys, commands: seq<Command>, lost: nat, now: int) returns (more: seq<Command>)
    requires Exactly(s, commands) && StepExact(s, Crash(lost, now))
    ensures Exactly(Next(s, Crash(lost, now)), more)
  {
    hide Consistent, Total, Sized, ExpiriesFit, SafeRun, IsLogged, ToUpper, ExecAll, Feed, Whole, FormatAll;
    ExactFacts(s, commands, now);
    var n := |Left(s.log, lost)|;
    TornLog(commands, n);
    IntactIff(commands, n);
    more := commands[..Whole(commands, n)];
    assert Left(s.log, lost) == s.log[..n];
    forall clock ensures SafeRun(EMPTY, more, clock) {
      assert more + commands[|more|..] == commands;
      SafeRunPrefix(EMPTY, more, commands[|more|..], clock);
    }
    forall k | 0 <= k <= |more| ensures SteadyAt(more, k) {
      assert more[..k] == commands[..k];
      assert SteadyAt(commands, k);
    }
    assert more[..|more|] == more && SteadyAt(more, |more|);
  }

  lemma {:induction false} RunExactly(s: Sys, commands: seq<Command>, steps: seq<Turn>) returns (more: seq<Command>)
    requires Exactly(s, commands) && RunExact(s, steps)
    ensures Exactly(Run(s, steps), more)
    decreases |steps|
  {
    hide Exactly, StepExact, Next;
    more := commands;
    if steps != [] {
      match steps[0] {
        case Client(args, now) =>
          ClientExact(s, commands, args, now);
          more := Extended(commands, args, Apply(s.db.vals, args, now));
        case Rewrite(now) => more := RewriteExact(s, commands, now);
        case Crash(lost, now) => more := CrashExact(s, commands, lost, now);
      }
      more := RunExactly(Next(s, steps[0]), more, steps[1..]);
    }
  }

  /** Through any number of evictions, rewrites and crashes, a run of steps that the log
      repeats is replayed, at any time, to the very same store: every key, every value,
      and the order in which they will be evicted. */
  lemma RunIsExact(steps: seq<Turn>, clock: int)
    requires RunExact(FRESH, steps)
    ensures var s := Run(FRESH, steps);
            && Recovered(s.log, clock) == s.db && Feed(INITIAL, s.log).end == Some(INITIAL)
            && SafeRun(EMPTY, Feed(INITIAL, s.log).commands, clock)
  {
    hide Exactly, RunExact, Run, ExecAll, Feed, SafeRun;
    NothingIsExact();
    var commands := RunExactly(FRESH, [], steps);
    ExactFacts(Run(FRESH, steps), commands, clock);
  }

  // ---------- a run that is not repeated ----------

  /** A text whose key takes half of the store. */
  const HALF := Filling(LRU_MAX_MEMORY / 2 - NODE_OBJECT - 15 - STRING_OBJECT)

  function Filling(n: nat): (text: string)
    ensures |text| == n
  {
    seq(n, _ => 'x')
  }

  const BIG := StringValue(HALF, 0)
  const SMALL := StringValue("", 0)

  /** Two keys that fill the store, and a third: the older of the two goes. */
  lemma OlderGoes(x: string, y: string)
    requires (x == "a" && y == "b") || (x == "b" && y == "a")
    ensures Settle(Full(x, y), Put("c", SMALL)) == Db([y, "c"], Two(y, BIG, "c", SMALL))
  {
    hide Total;
    var grown := Append(Full(x, y), "c", SMALL);
    var left := Db([y, "c"], Two(y, BIG, "c", SMALL));
    FullCosts(x, y);
    assert grown.vals - {x} == left.vals && grown.order[1..] == left.order;
    assert DropOldest(grown) == left;
    assert EvictToFit(left) == left;
  }

  function One(x: string, v: Value): Values { map[x := v] }

  function Two(x: string, v: Value, y: string, w: Value): Values { map[x := v, y := w] }

  function Full(x: string, y: string): Db {
    Db([x, y], Two(x, BIG, y, BIG))
  }

  lemma FullCosts(x: string, y: string)
    requires (x == "a" && y == "b") || (x == "b" && y == "a")
    ensures Total(One(x, BIG)) < Total(Full(x, y).vals) == LRU_MAX_MEMORY
    ensures Total(Append(Full(x, y), "c", SMALL).vals) > LRU_MAX_MEMORY
    ensures Total(Two(y, BIG, "c", SMALL)) <= LRU_MAX_MEMORY
  {
    hide NodeMem, Total, Two, One;
    BigCosts(x);
    BigCosts(y);
    TwoCost(x, BIG, y, BIG);
    TwoCost(y, BIG, "c", SMALL);
    NotAmong(x, BIG, y, BIG, "c");
    TotalPut(Two(x, BIG, y, BIG), "c", SMALL);
  }

  lemma NotAmong(x: string, v: Value, y: string, w: Value, k: string)
    requires k != x && k != y
    ensures k !in Two(x, v, y, w)
  {}

  lemma TwoCost(x: string, v: Value, y: string, w: Value)
    requires x != y
    ensures Total(One(x, v)) == NodeMem(x, v)
    ensures Total(Two(x, v, y, w)) == NodeMem(x, v) + NodeMem(y, w)
  {
    hide NodeMem, Total;
    TotalEmpty();
    TotalPut(map[], x, v);
    TotalPut(One(x, v), y, w);
    assert map[][x := v] == One(x, v) && One(x, v)[y := w] == Two(x, v, y, w);
  }

  lemma BigCosts(k: string)
    requires k == "a" || k == "b"
    ensures NodeMem(k, BIG) == LRU_MAX_MEMORY / 2
    ensures 0 < NodeMem("c", SMALL) <= LRU_MAX_MEMORY / 2
  {}

  // The commands of the run: two keys fill the store, the first is read, and a third
  // key makes one of them go.
  const SET_A: Command := ["SET", "a", HALF]
  const SET_B: Command := ["SET", "b", HALF]
  const GET_A: Command := ["GET", "a"]
  const SET_C: Command := ["SET", "c", ""]

  lemma PlainSet(vals: Values, k: string, text: string, now: int)
    ensures var args := ["SET", k, text];
            && Apply(vals, args, now) == Applied(Put(k, StringValue(text, 0)), Done, true)
            && OpOf(args) == OpSet && !Relative(args, 3, false)
  {
    CommandNames();
  }

  lemma PlainGet(vals: Values)
    requires "a" in vals && vals["a"] == BIG
    ensures Apply(vals, GET_A, 0).effect == Bump("a") && !Apply(vals, GET_A, 0).success && OpOf(GET_A) == OpGet
  {
    assert ToUpper("GET") == "GET";
  }

  /** What the two stores, live and replayed, go through. */
  lemma Lives(now: int)
    ensures Exec(EMPTY, SET_A, now).db == Db(["a"], One("a", BIG))
    ensures Exec(Db(["a"], One("a", BIG)), SET_B, now).db == Full("a", "b")
    ensures Exec(Full("a", "b"), SET_C, now).db == Db(["b", "c"], Two("b", BIG, "c", SMALL))
    ensures Exec(Full("b", "a"), SET_C, now).db == Db(["a", "c"], Two("a", BIG, "c", SMALL))
  {
    hide Apply, Total, Settle;
    PlainSet(map[], "a", HALF, now);
    PlainSet(One("a", BIG), "b", HALF, now);
    PlainSet(Full("a", "b").vals, "c", "", now);
    PlainSet(Full("b", "a").vals, "c", "", now);
    FullCosts("a", "b");
    OlderGoes("a", "b");
    OlderGoes("b", "a");
    JustAppends(EMPTY, "a", BIG, Db(["a"], One("a", BIG)));
    JustAppends(Db(["a"], One("a", BIG)), "b", BIG, Full("a", "b"));
  }

  lemma JustAppends(db: Db, k: string, v: Value, grown: Db)
    requires k !in db.vals && Fits(grown.vals) && grown == Append(db, k, v)
    ensures Settle(db, Put(k, v)) == grown
  {
    hide Total;
  }

  lemma SetSized(args: Command, k: string, text: string)
    requires |k| <= INT_MAX && |text| <= INT_MAX && args == ["SET", k, text]
    ensures Sized(args)
  {}

  const STEPS := [Client(SET_A, 0), Client(SET_B, 0), Client(GET_A, 0), Client(SET_C, 0)]

  lemma RunOfFour(s: Sys, a: Turn, b: Turn, c: Turn, d: Turn)
    ensures Run(s, [a, b, c, d]) == Next(Next(Next(Next(s, a), b), c), d)
  {
    hide Next;
    assert [a, b, c, d][1..] == [b, c, d] && [b, c, d][1..] == [c, d] && [c, d][1..] == [d] && [d][1..] == [];
    assert Run(Next(s, a), [b, c, d]) == Run(Next(Next(s, a), b), [c, d]);
    assert Run(Next(Next(s, a), b), [c, d]) == Run(Next(Next(Next(s, a), b), c), [d]);
  }

  /** A plain SET on both sides: the store settles, and the log has one command more. */
  lemma SetTurn(s: Sys, commands: seq<Command>, k: string, text: string, now: int)
    requires s.log == FormatAll(commands) && AllLogged(commands) && |k| <= INT_MAX && |text| <= INT_MAX
    requires forall i :: 0 <= i < |commands| ==> Sized(commands[i])
    ensures var args := ["SET", k, text];
            var t := Next(s, Client(args, now));
            && t.db == Exec(s.db, args, now).db && t.log == FormatAll(commands + [args])
            && AllLogged(commands + [args])
            && forall i :: 0 <= i <= |commands| ==> Sized((commands + [args])[i])
  {
    hide Apply, Settle, Sized, AllLogged, Format, FormatAll, ToUpper, IsLogged;
    var args := ["SET", k, text];
    SetSized(args, k, text);
    PlainSet(s.db.vals, k, text, now);
    ClientLog(s, commands, args, now);
  }

  lemma GetTurn(s: Sys)
    requires s.db == Full("a", "b")
    ensures Next(s, Client(GET_A, 0)) == Sys(Full("b", "a"), s.log)
  {
    hide Apply;
    PlainGet(s.db.vals);
    assert Touch(Full("a", "b"), "a") == Full("b", "a");
  }

  /** Reading a key makes it newer, and the log does not say so: the live store evicts
      one key, the replayed store another. */
  lemma EvictionIsLost(clock: int)
    ensures var s := Run(FRESH, STEPS);
            && s.db == Db(["a", "c"], Two("a", BIG, "c", SMALL))
            && Recovered(s.log, clock) == Db(["b", "c"], Two("b", BIG, "c", SMALL))
  {
    hide Apply, Settle, Sized, AllLogged, FormatAll, Exec, Next, Run, Feed;
    Lives(0);
    RunOfFour(FRESH, STEPS[0], STEPS[1], STEPS[2], STEPS[3]);
    EmptyLog();
    SetTurn(FRESH, [], "a", HALF, 0);
    var s := Next(FRESH, STEPS[0]);
    SetTurn(s, [] + [SET_A], "b", HALF, 0);
    s := Next(s, STEPS[1]);
    GetTurn(s);
    s := Next(s, STEPS[2]);
    SetTurn(s, [] + [SET_A] + [SET_B], "c", "", 0);
    var commands := [] + [SET_A] + [SET_B] + [SET_C];
    LogRoundTrip(commands);
    ReplayOfThree(clock);
  }

  lemma EmptyLog()
    ensures FRESH.log == FormatAll([]) && AllLogged([])
  {}

  lemma ReplayOfThree(clock: int)
    ensures ExecAll(EMPTY, [] + [SET_A] + [SET_B] + [SET_C], clock) == Db(["b", "c"], Two("b", BIG, "c", SMALL))
  {
    hide Exec, ExecAll;
    Lives(clock);
    ExecAllConcat(EMPTY, [], [SET_A], clock);
    ExecAllConcat(EMPTY, [] + [SET_A], [SET_B], clock);
    ExecAllConcat(EMPTY, [] + [SET_A] + [SET_B], [SET_C], clock);
    RunNothing(clock);
    ExecAllOne(EMPTY, SET_A, clock);
    ExecAllOne(Db(["a"], One("a", BIG)), SET_B, clock);
    ExecAllOne(Full("a", "b"), SET_C, clock);
  }
}

/** Replaying a log without harm: no step of it touches a key that its own growth
    has evicted, and every command in it is one the log may hold. */
module Replay {
  import opened Text
  import opened Keyspace
  import opened Commands
  import opened Aof

  ghost predicate SafeRun(db: Db, commands: seq<Command>, clock: int)
    decreases |commands|
  {
    commands == []
    || (commands[0] != [] && Safe(db, commands[0], clock)
        && SafeRun(Exec(db, commands[0], clock).db, commands[1..], clock))
  }

  /** Only commands append_to_aof would have logged. */
  predicate AllLogged(commands: seq<Command>) {
    forall i :: 0 <= i < |commands| ==> commands[i] != [] && IsLogged(ToUpper(commands[i][0]))
  }

  lemma {:induction false} SafeRunConcat(db: Db, a: seq<Command>, b: seq<Command>, clock: int)
    requires SafeRun(db, a, clock) && SafeRun(ExecAll(db, a, clock), b, clock)
    ensures SafeRun(db, a + b, clock)
    decreases |a|
  {
    hide Exec, Safe;
    if a == [] {
      assert a + b == b;
    } else {
      assert (a + b)[1..] == a[1..] + b;
      SafeRunConcat(Exec(db, a[0], clock).db, a[1..], b, clock);
    }
  }

  lemma {:induction false} SafeRunPrefix(db: Db, a: seq<Command>, b: seq<Command>, clock: int)
    requires SafeRun(db, a + b, clock)
    ensures SafeRun(db, a, clock)
    decreases |a|
  {
    hide Exec, Safe;
    if a != [] {
      assert (a + b)[1..] == a[1..] + b;
      SafeRunPrefix(Exec(db, a[0], clock).db, a[1..], b, clock);
    }
  }

  lemma SafeNone(db: Db, clock: int)
    ensures SafeRun(db, [], clock)
  {}

  lemma SafeOne(db: Db, args: Command, clock: int)
    requires args != [] && Safe(db, args, clock)
    ensures SafeRun(db, [args], clock)
  {
    assert [args][1..] == [];
  }

  /** With room for its result, an effect never evicts the key it changes. */
  lemma FitsIsSafe(db: Db, effect: Effect)
    requires EffectFor(db.vals, effect) && Fits(Result(db.vals, effect))
    ensures EffectSafe(db, effect)
  {
    hide Total;
    match effect
    case Put(k, v) => assert EvictToFit(Write(db, k, v)) == Write(db, k, v);
    case Create(k, seed, v) =>
      CreateSettlesPlainly(db, k, seed, v);
      assert Write(Append(db, k, seed), k, v).vals == db.vals[k := v];
    case _ =>
  }

  lemma DumpedIsSafe(cur: Db, k: string, v: Value, clock: int)
    requires Consistent(cur) && k !in cur.vals && ValueOk(v) && !EmptyCollection(v)
    requires v.StringValue? ==> v.expiry <= LLONG_MAX
    requires ValueOk(Reload(v)) && Fits(cur.vals[k := Reload(v)])
    ensures DumpValue(k, v) != [] && Safe(cur, DumpValue(k, v), clock)
    ensures IsLogged(ToUpper(DumpValue(k, v)[0]))
  {
    hide Apply, Reload, Total, HashPairs;
    CommandNames();
    DumpedEffect(cur.vals, k, v, clock);
    DumpedOp(k, v);
    FitsIsSafe(cur, Apply(cur.vals, DumpValue(k, v), clock).effect);
  }

  /** The rewritten log can be replayed without a key being lost on the way. */
  lemma {:induction false} RewriteIsSafe(db: Db, now: int, clock: int, n: nat)
    requires Consistent(db) && Fits(db.vals) && ExpiriesFit(db.vals) && n <= |db.order|
    ensures SafeRun(EMPTY, Dump(db.order[..n], db.vals, now), clock)
    ensures AllLogged(Dump(db.order[..n], db.vals, now))
  {
    if n == 0 {
      assert Dump(db.order[..0], db.vals, now) == [];
    } else {
      hide Total, Dump, SafeRun, AllLogged, Consistent, ExpiriesFit;
      RewriteIsSafe(db, now, clock, n - 1);
      NextIsSafe(db, now, clock, n - 1);
    }
  }

  lemma NextIsSafe(db: Db, now: int, clock: int, n: nat)
    requires Consistent(db) && Fits(db.vals) && ExpiriesFit(db.vals) && n < |db.order|
    requires SafeRun(EMPTY, Dump(db.order[..n], db.vals, now), clock)
    requires AllLogged(Dump(db.order[..n], db.vals, now))
    ensures SafeRun(EMPTY, Dump(db.order[..n + 1], db.vals, now), clock)
    ensures AllLogged(Dump(db.order[..n + 1], db.vals, now))
  {
    hide Total, DumpValue, Reload, Exec, Safe, Dump, RestoredUpTo, SafeRun, IsLogged, ExecAll, HashPairs, ToUpper;
    ReplayRebuilds(db, now, clock, n);
    RestoredStep(db, now, n);
    RestoredTotal(db, now, n + 1);
    var k := db.order[n];
    var before, last := Dump(db.order[..n], db.vals, now), DumpKey(k, db.vals, now);
    var cur := RestoredUpTo(db, now, n);
    if Kept(db.vals[k], now) {
      ReloadCostsNoMore(db.vals[k]);
      DumpedIsSafe(cur, k, db.vals[k], clock);
      SafeOne(cur, DumpValue(k, db.vals[k]), clock);
    } else {
      SafeNone(cur, clock);
    }
    SafeRunConcat(EMPTY, before, last, clock);
  }
}

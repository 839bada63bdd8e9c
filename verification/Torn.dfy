/** A log whose end a crash has cut off: what it recovers, and when commands can be
    appended to it and read back. */
module Torn {
  import opened Text
  import opened Costs
  import opened Hash
  import opened Keyspace
  import opened Commands
  import opened Resp
  import opened Aof
  import opened Replay
  import opened Durability

  // ---------- what a torn log recovers ----------

  lemma RecoveredAlways(s: Sys, commands: seq<Command>, now: int, clock: int)
    requires RecoverableBy(s, commands, now)
    ensures SafeRun(EMPTY, commands, clock) && InSync(s.db.vals, ExecAll(EMPTY, commands, clock).vals, now)
  {
    hide Consistent, Total, InSync, ExecAll, ExpiriesFit, AllLogged, Sized, Clockless;
    Steady(EMPTY, commands, clock, 0);
  }

  /** Commands that only append to the log. */
  ghost predicate AppendsOnly(s: Sys, steps: seq<Turn>)
    decreases |steps|
  {
    steps == [] || (steps[0].Client? && Apply(s.db.vals, steps[0].args, steps[0].now).effect != Wipe
                    && AppendsOnly(Next(s, steps[0]), steps[1..]))
  }

  lemma {:induction false} LogGrows(s: Sys, steps: seq<Turn>)
    requires AppendsOnly(s, steps)
    ensures s.log <= Run(s, steps).log
    decreases |steps|
  {
    hide Apply, Exec, Appended;
    if steps != [] {
      GrowsByOne(s, steps[0].args, steps[0].now);
      LogGrows(Next(s, steps[0]), steps[1..]);
    }
  }

  lemma GrowsByOne(s: Sys, args: Command, now: int)
    ensures Apply(s.db.vals, args, now).effect != Wipe ==> s.log <= Next(s, Client(args, now)).log
  {
    hide Apply, Exec, Format, ToUpper;
  }

  /** A log cut after any byte since it was last started afresh gives the store as it
      was after some step of the run, the last one whose logging is complete. */
  lemma {:induction false} TornFrom(s: Sys, commands: seq<Command>, steps: seq<Turn>, now: int, n: nat)
    returns (m: nat)
    requires RecoverableBy(s, commands, now) && RunOk(s, steps, now) && AppendsOnly(s, steps)
    requires |s.log| <= n <= |Run(s, steps).log|
    ensures m <= |steps|
    ensures var fed := Feed(INITIAL, Run(s, steps).log[..n]);
            fed.end.Some? && RecoverableBy(Run(s, steps[..m]), fed.commands, Finish(steps[..m], now))
    ensures |Run(s, steps[..m]).log| <= n
    ensures m < |steps| ==> n < |Next(Run(s, steps[..m]), steps[m]).log|
    decreases |steps|
  {
    hide RecoverableBy, StepOk, Next, Feed, Apply;
    m := 0;
    assert steps[..0] == [];
    if steps == [] {
      assert s.log[..n] == s.log;
      LogRead(s, commands, now, now);
    } else {
      var t := Next(s, steps[0]);
      var more := StepKeeps(s, commands, steps[0], now);
      LogGrows(t, steps[1..]);
      if |t.log| <= n {
        var l := TornFrom(t, more, steps[1..], steps[0].now, n);
        m := l + 1;
        assert steps[..m][1..] == steps[1..][..l];
      } else {
        assert Run(s, steps).log[..n] == t.log[..n];
        TornInside(s, commands, steps[0].args, steps[0].now, now, n);
      }
    }
  }

  lemma TornInside(s: Sys, commands: seq<Command>, args: Command, at: int, now: int, n: nat)
    requires RecoverableBy(s, commands, now) && RecoverableBy(Next(s, Client(args, at)),
               Extended(commands, args, Apply(s.db.vals, args, at)), at)
    requires Apply(s.db.vals, args, at).effect != Wipe
    requires |s.log| <= n < |Next(s, Client(args, at)).log|
    ensures var fed := Feed(INITIAL, Next(s, Client(args, at)).log[..n]);
            fed.end.Some? && fed.commands == commands
  {
    hide Consistent, Total, Apply, InSync, Settle, Sized, ExpiriesFit, SafeRun, AllLogged, AllClockless, Format, Feed,
         ToUpper, IsLogged, ExecAll;
    var more := Extended(commands, args, Apply(s.db.vals, args, at));
    TornLog(more, n);
    WholeIsExact(more, n);
    var k := Whole(more, n);
    assert more[..|commands|] == commands && more[..|more|] == more;
    if k < |commands| {
      LogOrder(more, k + 1, |commands|);
    }
  }

  /** More commands make a longer log. */
  lemma LogOrder(commands: seq<Command>, i: nat, j: nat)
    requires i <= j <= |commands|
    ensures |FormatAll(commands[..i])| <= |FormatAll(commands[..j])|
  {
    hide FormatAll;
    assert commands[..i] + commands[i..j] == commands[..j];
    FormatAllConcat(commands[..i], commands[i..j]);
  }

  /** Whatever a crash leaves of the log file can be replayed safely. */
  lemma LeftIsSafe(steps: seq<Turn>, start: int, lost: nat, clock: int)
    requires RunOk(FRESH, steps, start)
    ensures var fed := Feed(INITIAL, Left(Run(FRESH, steps).log, lost));
            fed.end.Some? && AllLogged(fed.commands) && SafeRun(EMPTY, fed.commands, clock)
  {
    hide InSync, RunOk, Run, Consistent, Sized, ExecAll, SafeRun, AllLogged, Total, ExpiriesFit, Feed, Whole,
         FormatAll, RecoverableBy;
    FreshIsRecoverable(start);
    var commands := RunKeeps(FRESH, [], steps, start);
    var s := Run(FRESH, steps);
    LogIs(s, commands, Finish(steps, start));
    var n := |Left(s.log, lost)|;
    assert Left(s.log, lost) == s.log[..n];
    TornLog(commands, n);
    SomeOfLog(s, commands, Finish(steps, start), Whole(commands, n));
  }

  /** A crash that loses the end of the file, at any byte: everything up to some step
      of the run is recovered, and nothing of what came after. */
  lemma TornRunIsDurable(before: seq<Turn>, after: seq<Turn>, start: int, n: nat, clock: int) returns (m: nat)
    requires RunOk(FRESH, before, start)
    requires var s := Run(FRESH, before);
             && RunOk(s, after, Finish(before, start)) && AppendsOnly(s, after)
             && |s.log| <= n <= |Run(s, after).log|
    ensures m <= |after|
    ensures var s := Run(FRESH, before);
            var t := Run(s, after[..m]);
            var torn := Run(s, after).log[..n];
            && Feed(INITIAL, torn).end.Some? && t.log <= torn
            && SafeRun(EMPTY, Feed(INITIAL, torn).commands, clock)
            && InSync(t.db.vals, Recovered(torn, clock).vals, Finish(after[..m], Finish(before, start)))
            && (m < |after| ==> n < |Next(t, after[m]).log|)
  {
    hide InSync, RunOk, Run, Consistent, Sized, ExecAll, SafeRun, AllLogged, Total, ExpiriesFit, Next, Feed,
         AppendsOnly;
    FreshIsRecoverable(start);
    var commands := RunKeeps(FRESH, [], before, start);
    var s := Run(FRESH, before);
    m := TornFrom(s, commands, after, Finish(before, start), n);
    var torn := Run(s, after).log[..n];
    TornIsPrefix(s, after, m, n);
    RecoveredAlways(Run(s, after[..m]), Feed(INITIAL, torn).commands, Finish(after[..m], Finish(before, start)), clock);
  }

  lemma {:induction false} TornIsPrefix(s: Sys, steps: seq<Turn>, m: nat, n: nat)
    requires AppendsOnly(s, steps) && m <= |steps|
    requires |Run(s, steps[..m]).log| <= n <= |Run(s, steps).log|
    ensures Run(s, steps[..m]).log <= Run(s, steps).log[..n]
    decreases |steps|
  {
    hide Next, Apply;
    LogGrows(s, steps);
    if m == 0 {
      assert steps[..0] == [];
    } else {
      assert steps[..m][1..] == steps[1..][..m - 1];
      TornIsPrefix(Next(s, steps[0]), steps[1..], m - 1, n);
    }
  }

  // ---------- what a torn log can be used for ----------

  /** The side condition on a crash is exact: the file that is left reads back every
      command appended to it if and only if the replay finds it to end with a complete
      command. Without loss it does. */
  lemma CrashAppendableIff(s: Sys, commands: seq<Command>, lost: nat, now: int)
    requires RecoverableBy(s, commands, now)
    ensures var file := Next(s, Crash(lost, now)).log;
            (forall args :: Sized(args) ==>
               Feed(INITIAL, file + Format(args)) == Fed(Feed(INITIAL, file).commands + [args], Some(INITIAL)))
            <==> StepOk(s, Crash(lost, now))
    ensures StepOk(s, Crash(0, now))
  {
    hide Total, ExecAll, SafeRun, InSync, AllLogged, Clockless, Sized, Consistent, ExpiriesFit, FormatAll, Feed,
         Whole, RecoverableBy, Format;
    LogIs(s, commands, now);
    LogRead(s, commands, now, now);
    var n := |Left(s.log, lost)|;
    TornLog(commands, n);
    assert Left(s.log, lost) == s.log[..n] && Left(s.log, 0) == s.log;
    AppendableIff(Left(s.log, lost));
  }

  /** Torn after one byte, a log stops being readable at the next command: the replay
      ends in an exception nobody catches. */
  lemma TornEndIsFatal(commands: seq<Command>, args: Command)
    requires forall i :: 0 <= i < |commands| ==> Sized(commands[i])
    ensures var torn := FormatAll(commands) + "*";
            && Feed(INITIAL, torn).commands == commands && Feed(INITIAL, torn).end.Some?
            && Feed(INITIAL, torn + Format(args)) == Fed(commands, None)
  {
    hide Feed, Format, FormatAll;
    LogRoundTrip(commands);
    StrayStar(args);
    FeedConcat(INITIAL, FormatAll(commands), "*");
    FeedConcat(INITIAL, FormatAll(commands), "*" + Format(args));
    assert FormatAll(commands) + "*" + Format(args) == FormatAll(commands) + ("*" + Format(args));
  }

  /** Torn inside a DEL, after its name, a log turns the next command into the deletion
      of a key nobody named, and nothing shows that it did. */
  lemma TornEndIsForged(commands: seq<Command>, key: string, args: Command)
    requires forall i :: 0 <= i < |commands| ==> Sized(commands[i])
    requires Sized(args) && StarFree(BulkStrings(args[1..]))
    ensures TORN_DEL <= Format(["DEL", key])
    ensures Feed(INITIAL, FormatAll(commands) + TORN_DEL + Format(args)) ==
            Fed(commands + [["DEL", args[0]]], Some(INITIAL))
  {
    hide Feed, Format, FormatAll, BulkStrings;
    LogRoundTrip(commands);
    ForgedDelete(key, args);
    FeedConcat(INITIAL, FormatAll(commands), TORN_DEL + Format(args));
    assert FormatAll(commands) + TORN_DEL + Format(args) == FormatAll(commands) + (TORN_DEL + Format(args));
  }
}

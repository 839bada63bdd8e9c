/** Runs from an empty server after which the log does not give back the store. */
module Divergence {
  import opened Text
  import opened Costs
  import opened Hash
  import opened Keyspace
  import opened Commands
  import opened Resp
  import opened Aof
  import opened Replay
  import opened Durability

  /** A replay of the log that does not give what the store holds. */
  ghost predicate OutOfStep(s: Sys, now: int) {
    exists clock :: !InSync(s.db.vals, Recovered(s.log, clock).vals, now)
  }

  /** After a first command that the log follows, on an empty server. */
  lemma FirstStep(args: Command, k: string, v: Value, now: int)
    requires Sized(args) && (OpOf(args) == OpSet || OpOf(args) == OpHSet)
    requires var a := Apply(map[], args, now);
             a.success && a.effect != Wipe && Result(map[], a.effect) == map[k := v]
    requires LogFollows(map[], map[], args, now) && NodeMem(k, v) <= LRU_MAX_MEMORY
    ensures var s := Next(FRESH, Client(args, now));
            RecoverableBy(s, [args], now) && s.db.vals == map[k := v]
  {
    hide Apply, LogFollows, Total, OpOf, RecoverableBy, Result;
    FreshIsRecoverable(now);
    LogRead(FRESH, [], now, now);
    TotalEmpty();
    TotalPut(map[], k, v);
    assert map[][k := v] == map[k := v];
    var more := ClientKeeps(FRESH, [], args, now);
    assert [] + [args] == [args];
    ClientReplay(FRESH, [], args, now, now);
  }

  lemma RunOfTwo(a: Turn, b: Turn)
    ensures Run(FRESH, [a]) == Next(FRESH, a)
    ensures Run(FRESH, [a, b]) == Next(Next(FRESH, a), b)
  {
    hide Next;
    RunOne(FRESH, a);
    RunOne(Next(FRESH, a), b);
    assert [a, b][1..] == [b];
  }

  /** A second command that the log does not follow. */
  lemma SecondStep(first: Command, args: Command, k: string, v: Value, now: int, later: int)
    requires RecoverableBy(Next(FRESH, Client(first, now)), [first], now) && now <= later
    requires Next(FRESH, Client(first, now)).db.vals == map[k := v]
    requires Harmless(Next(FRESH, Client(first, now)), args, later)
    requires !LogFollows(map[k := v], Recovered(Next(FRESH, Client(first, now)).log, later).vals, args, later)
    ensures OutOfStep(Run(FRESH, [Client(first, now), Client(args, later)]), later)
  {
    hide LogFollows, RecoverableBy, Next, Harmless, Recovered, InSync;
    var s := Next(FRESH, Client(first, now));
    LaterKeeps(s, [first], now, later);
    ClientDurableIff(s, [first], args, later);
    RunOfTwo(Client(first, now), Client(args, later));
  }

  /** A time to live starts again at replay. */
  lemma RelativeIsLost()
    ensures OutOfStep(Run(FRESH, [Client(["SET", "k", "v", "PX", "5"], 0)]), 0)
  {
    var args := ["SET", "k", "v", "PX", "5"];
    var v := StringValue("v", 5);
    hide RecoverableBy, InSync;
    RelativeSet();
    FreshIsRecoverable(0);
    LogRead(FRESH, [], 0, 0);
    TotalEmpty();
    TotalPut(map[], "k", v);
    assert map[]["k" := v] == map["k" := v];
    ClientDurableIff(FRESH, [], args, 0);
    RunOfTwo(Client(args, 0), Client(args, 0));
  }

  lemma RelativeSet()
    ensures var args := ["SET", "k", "v", "PX", "5"];
            && Sized(args) && OpOf(args) == OpSet && Relative(args, 3, false)
            && ParseExpiry(args, 3, 0, 0) == Some(5)
  {
    CommandNames();
    assert ToUpper("PX") == "PX";
    ReadToString(5);
    assert ToString(5) == "5";
  }

  lemma AbsoluteSet(text: string, at: int, now: int)
    requires text == ToString(at) && |text| <= INT_MAX && LLONG_MIN <= at <= LLONG_MAX
    ensures var args := ["SET", "k", "v", "PXAT", text];
            && Sized(args) && OpOf(args) == OpSet && !Relative(args, 3, false)
            && ParseExpiry(args, 3, 0, now) == Some(at)
  {
    CommandNames();
    ReadToString(at);
  }

  /** A GET deletes an expired key that the log brings back. */
  lemma LazyExpiryIsLost()
    ensures OutOfStep(Run(FRESH, [Client(["SET", "k", "v", "PXAT", "5"], 0), Client(["GET", "k"], 9)]), 9)
  {
    hide Next, InSync, Total, OpOf, Harmless, LogFollows, Sized, RecoverableBy, Recovered, OutOfStep, Run;
    var first, args := ["SET", "k", "v", "PXAT", "5"], ["GET", "k"];
    var v := StringValue("v", 5);
    ExpiringFirst(first, v);
    var s := Next(FRESH, Client(first, 0));
    LogHolds(first, v);
    ExpiredSecond(s, Recovered(s.log, 9).vals, v);
    SecondStep(first, args, "k", v, 0, 9);
  }

  lemma ExpiringFirst(first: Command, v: Value)
    requires first == ["SET", "k", "v", "PXAT", "5"] && v == StringValue("v", 5)
    ensures var s := Next(FRESH, Client(first, 0)); RecoverableBy(s, [first], 0) && s.db.vals == map["k" := v]
  {
    assert ToString(5) == "5";
    AbsoluteSet("5", 5, 0);
    hide OpOf, ParseExpiry, Relative, RecoverableBy, Total, Sized, Next;
    FirstStep(first, "k", v, 0);
  }

  lemma ExpiredSecond(s: Sys, logged: Values, v: Value)
    requires s.db.vals == map["k" := v] && v == StringValue("v", 5) && "k" in logged
    ensures Harmless(s, ["GET", "k"], 9) && !LogFollows(s.db.vals, logged, ["GET", "k"], 9)
  {
    ExpiredGet(v);
    hide Total, OpOf, Apply, Sized;
    TotalEmpty();
  }

  lemma ExpiredGet(v: Value)
    requires v == StringValue("v", 5)
    ensures var args := ["GET", "k"];
            && Sized(args) && OpOf(args) == OpGet && ExpiredForGet(v, 9)
            && Result(map["k" := v], Apply(map["k" := v], args, 9).effect) == map[]
  {
    assert ToUpper("GET") == "GET";
    assert Elements(["k"]) == {"k"};
  }

  lemma LogHolds(first: Command, v: Value)
    requires v == StringValue("v", 5)
    requires var s := Next(FRESH, Client(first, 0)); RecoverableBy(s, [first], 0) && s.db.vals == map["k" := v]
    ensures "k" in Recovered(Next(FRESH, Client(first, 0)).log, 9).vals
  {
    hide InSync, Next, RecoverableBy;
    var s := Next(FRESH, Client(first, 0));
    LogRead(s, [first], 0, 9);
    assert InSync(s.db.vals, Recovered(s.log, 9).vals, 0) by { StillInSync(s, [first], 0); }
    KeySides(s.db.vals, Recovered(s.log, 9).vals, "k", 0);
  }

  lemma StillInSync(s: Sys, commands: seq<Command>, now: int)
    requires RecoverableBy(s, commands, now)
    ensures InSync(s.db.vals, ExecAll(EMPTY, commands, 0).vals, now)
  {
    hide InSync, ExecAll, Consistent, Total, SafeRun, Sized;
  }

  /** GET takes a string with a negative expiry for expired, a rewrite keeps it. */
  lemma NegativeExpiryIsLost()
    ensures OutOfStep(Run(FRESH, [Client(["SET", "k", "v", "PXAT", "-1"], 0), Rewrite(0)]), 0)
  {
    var first := ["SET", "k", "v", "PXAT", "-1"];
    assert ToString(-1) == "-1";
    AbsoluteSet("-1", -1, 0);
    FirstStep(first, "k", StringValue("v", -1), 0);
    hide RecoverableBy, InSync, Next;
    var s := Next(FRESH, Client(first, 0));
    RewriteDurableIff(s, [first], 0);
    assert "k" in s.db.vals;
    RunOfTwo(Client(first, 0), Rewrite(0));
  }

  /** The concrete write an HSET loses: the field is there, the value changes, and
      the reply is 0. */
  lemma OverwriteIsLost()
    ensures OutOfStep(Run(FRESH, [Client(["HSET", "k", "f", "a"], 0), Client(["HSET", "k", "f", "b"], 0)]), 0)
  {
    var first, args := ["HSET", "k", "f", "a"], ["HSET", "k", "f", "b"];
    var v := HashValue(VectorRep([("f", "a")]));
    OverwriteFirst();
    var s := Next(FRESH, Client(first, 0));
    OverwriteSecond(s, Recovered(s.log, 0).vals);
    hide Next, Total, OpOf, RecoverableBy, Harmless, LogFollows, Sized, OutOfStep;
    SecondStep(first, args, "k", v, 0, 0);
  }

  lemma OverwriteSecond(s: Sys, logged: Values)
    requires s.db.vals == map["k" := HashValue(VectorRep([("f", "a")]))]
    ensures Harmless(s, ["HSET", "k", "f", "b"], 0) && !LogFollows(s.db.vals, logged, ["HSET", "k", "f", "b"], 0)
  {
    hide Total, OpOf, Apply, LosesWrite, Sized, ValueMem;
    var w := HashValue(VectorRep([("f", "b")]));
    OneFieldCosts("b");
    SecondWrite();
    TotalPut(map[], "k", w);
    TotalEmpty();
    assert s.db.vals["k" := w] == map[]["k" := w];
  }

  lemma OverwriteFirst()
    ensures var first := ["HSET", "k", "f", "a"];
            var s := Next(FRESH, Client(first, 0));
            RecoverableBy(s, [first], 0) && s.db.vals == map["k" := HashValue(VectorRep([("f", "a")]))]
  {
    OneFieldCosts("a");
    OneField("a");
    FirstWrite();
    hide OpOf, Apply, RecoverableBy, LogFollows, Sized;
    FirstStep(["HSET", "k", "f", "a"], "k", HashValue(VectorRep([("f", "a")])), 0);
  }

  lemma OneFieldCosts(text: string)
    requires |text| == 1
    ensures NodeMem("k", HashValue(VectorRep([("f", text)]))) <= LRU_MAX_MEMORY
  {
    var p := ("f", text);
    assert [p][..0] == [];
    assert VectorMem([p]) == VectorMem([]) + PairMem(p, HASH_ENTRY_OVERHEAD_VECTOR);
    assert Cap(text) == 15 && Cap("f") == 15 && Cap("k") == 15;
  }

  lemma OneField(text: string)
    ensures var args := ["HSET", "k", "f", text]; OpOf(args) == OpHSet && Pairs(args[2..]) == [("f", text)]
  {
    CommandNames();
    var rest := ["HSET", "k", "f", text][2..];
    assert rest == ["f", text] && rest[2..] == [];
    assert Pairs(rest) == [("f", text)] + Pairs([]);
  }

  lemma FirstWrite()
    ensures var args := ["HSET", "k", "f", "a"];
            var v := HashValue(VectorRep([("f", "a")]));
            && Sized(args) && LogFollows(map[], map[], args, 0)
            && Apply(map[], args, 0) == Applied(Create("k", HashValue(EMPTY_HASH), v), Integer(1), true)
  {
    OneField("a");
    var pairs := [("f", "a")];
    assert pairs[1..] == [];
    assert SetField(EMPTY_HASH, "f", "a") == VectorRep([("f", "a")]);
  }

  lemma SecondWrite()
    ensures var vals: Values := map["k" := HashValue(VectorRep([("f", "a")]))];
            var args := ["HSET", "k", "f", "b"];
            && Sized(args) && OpOf(args) == OpHSet && LosesWrite(vals, args)
            && Apply(vals, args, 0) == Applied(Put("k", HashValue(VectorRep([("f", "b")]))), Integer(0), false)
  {
    OneField("b");
    var h := VectorRep([("f", "a")]);
    assert [("f", "a")][..0] == [];
    assert Fields(h) == map["f" := "a"];
    var g := SetField(h, "f", "b");
    assert g == VectorRep([("f", "b")]);
    assert [("f", "b")][..0] == [];
    assert Fields(g) == map["f" := "b"];
    assert [("f", "b")][1..] == [];
    assert WriteAll(h, [("f", "b")]) == g;
    assert Fields(g)["f"] != Fields(h)["f"];
  }
}

/** The server: dispatch with its pub/sub gate, the log file, rewrite, replay, and
    the loop that feeds received bytes through a parser into it. */
module Server {
  import opened Text
  import opened Keyspace
  import opened Commands
  import opened Lru
  import opened Resp
  import opened Aof
  import opened Replay
  import opened Durability
  import opened Torn
  import Hash
  import Handlers
  import PubSub

  // ---------- the server as a value ----------

  datatype World = World(sys: Sys, registry: PubSub.State)

  /** The descriptor that stands for a replay. */
  const REPLAY := PubSub.Fd(-1)

  /** A subscriber may only ping, subscribe and unsubscribe. */
  predicate Gated(registry: PubSub.State, fd: PubSub.Descriptor, args: Command)
    requires args != []
  {
    var cmd := ToUpper(args[0]);
    && fd in registry.clients && registry.clients[fd].isSubscriber
    && cmd != "PING" && cmd != "SUBSCRIBE" && cmd != "UNSUBSCRIBE"
  }

  function Registered(registry: PubSub.State, fd: PubSub.Descriptor, args: Command): PubSub.State
    requires args != []
  {
    var cmd := ToUpper(args[0]);
    if cmd == "SUBSCRIBE" && |args| >= 2 then PubSub.WithSubscriptions(registry, fd, args[1..])
    else if cmd == "UNSUBSCRIBE" then
      PubSub.WithoutSubscriptions(registry, fd, PubSub.Named(registry, fd, args[1..]))
    else if cmd == "PUBLISH" && |args| == 3 then PubSub.WithoutGhosts(registry, args[1])
    else registry
  }

  /** Store and log after a command; a replay does not log. */
  ghost function Logged(s: Sys, fd: PubSub.Descriptor, args: Command, now: int): Sys {
    var next := Next(s, Client(args, now));
    if fd != REPLAY then next
    else Sys(next.db, if Apply(s.db.vals, args, now).effect == Wipe then "" else s.log)
  }

  ghost function Handle(w: World, fd: PubSub.Descriptor, args: Command, now: int): World
    requires args != []
  {
    var registry := PubSub.Touched(w.registry, fd);
    if Gated(registry, fd, args) then World(w.sys, registry)
    else World(Logged(w.sys, fd, args, now), Registered(registry, fd, args))
  }

  /** Those a message goes to. */
  function Told(registry: PubSub.State, args: Command): set<PubSub.Descriptor>
    requires args != []
  {
    if ToUpper(args[0]) == "PUBLISH" && |args| == 3 then PubSub.Targets(registry, args[1]) else {}
  }

  function Audience(w: World, fd: PubSub.Descriptor, args: Command): set<PubSub.Descriptor>
    requires args != []
  {
    var registry := PubSub.Touched(w.registry, fd);
    if Gated(registry, fd, args) then {} else Told(registry, args)
  }

  /** What the store has to say to a command, or the gate. */
  ghost function Answer(w: World, fd: PubSub.Descriptor, args: Command, now: int): Reply
    requires args != []
  {
    if Gated(PubSub.Touched(w.registry, fd), fd, args) then Failed else Exec(w.sys.db, args, now).reply
  }

  ghost function HandleAll(w: World, fd: PubSub.Descriptor, commands: seq<Command>, now: int): World
    decreases |commands|
  {
    if commands == [] then w
    else if commands[0] == [] then HandleAll(w, fd, commands[1..], now)
    else HandleAll(Handle(w, fd, commands[0], now), fd, commands[1..], now)
  }

  /** A command that the gate refuses, or that is safe to execute. */
  ghost predicate Admissible(w: World, fd: PubSub.Descriptor, args: Command, now: int)
    requires args != []
  {
    Gated(PubSub.Touched(w.registry, fd), fd, args) || Safe(w.sys.db, args, now)
  }

  ghost predicate AllSafe(w: World, fd: PubSub.Descriptor, commands: seq<Command>, now: int)
    decreases |commands|
  {
    if commands == [] then true
    else if commands[0] == [] then AllSafe(w, fd, commands[1..], now)
    else Admissible(w, fd, commands[0], now) && AllSafe(Handle(w, fd, commands[0], now), fd, commands[1..], now)
  }

  lemma AllSafeCons(w: World, fd: PubSub.Descriptor, command: Command, more: seq<Command>, now: int)
    requires AllSafe(w, fd, [command] + more, now) && command != []
    ensures Admissible(w, fd, command, now) && AllSafe(Handle(w, fd, command, now), fd, more, now)
  {
    assert ([command] + more)[1..] == more;
  }

  /** The parser hands over no empty command. */
  lemma DispatchIsCommand(p: Parser, c: char)
    ensures Step(p, c).Dispatch? ==> Step(p, c).command != []
  {}

  // ---------- rewriting the log ----------

  method CollectItems(items: seq<string>, cmd: Command) returns (r: Command)
    ensures r == cmd + items
  {
    r := cmd;
    for i := 0 to |items|
      invariant r == cmd + items[..i]
    {
      r := r + [items[i]];
    }
  }

  method CollectFields(pairs: seq<Hash.Pair>, cmd: Command) returns (r: Command)
    ensures r == cmd + Flat(pairs)
  {
    r := cmd;
    for i := 0 to |pairs|
      invariant r + Flat(pairs[i..]) == cmd + Flat(pairs)
    {
      assert pairs[i..][1..] == pairs[i + 1..];
      ghost var before := r;
      r := r + [pairs[i].0];
      r := r + [pairs[i].1];
      assert before + Flat(pairs[i..]) == r + Flat(pairs[i + 1..]);
    }
    assert r + [] == r;
  }

  /** The loop body of rewrite_aof: the command for one node, if any. */
  method DumpNode(node: DrutaNode, ghost v: Value, now: int) returns (cmd: Option<Command>)
    requires node.Holds(v)
    ensures cmd == if Kept(v, now) then Some(DumpValue(node.key, v)) else None
  {
    if node.value.expiry > 0 && now > node.value.expiry {
      return None;
    }
    match node.value.data {
      case StringData(text) =>
        var c := ["SET", node.key, text];
        if node.value.expiry > 0 {
          c := c + ["PXAT", ToString(node.value.expiry)];
        }
        assert c == DumpValue(node.key, v);
        return Some(c);
      case ListData(items) =>
        if items == [] {
          return None;
        }
        var c := CollectItems(items, ["RPUSH", node.key]);
        return Some(c);
      case HashData(hash) =>
        var pairs := HashPairs(hash.rep);
        if pairs == [] {
          return None;
        }
        var c := CollectFields(pairs, ["HSET", node.key]);
        return Some(c);
      case SetData(elements) =>
        if elements == {} {
          return None;
        }
        var c := CollectItems(Sorted(elements), ["SADD", node.key]);
        return Some(c);
    }
  }

  /** Walks the list from the least recent node and writes the new log. */
  method RewriteAof(s: Store, now: int) returns (log: string)
    requires s.Valid()
    ensures log == FormatAll(Dump(s.Abs().order, s.vals, now))
  {
    hide Store.Structure, Keys, Dump, DumpValue, Kept, FormatAll, Format, Total;
    log := "";
    s.NodesInRepr();
    s.Walk(0);
    DumpNothing(Keys(s.nodes), s.vals, now);
    var cur := s.tail;
    ghost var i := 0;
    while cur != null
      invariant s.Structure()
      invariant i <= |s.nodes| && cur == if i < |s.nodes| then s.nodes[i] else null
      invariant log == FormatAll(Dump(Keys(s.nodes)[..i], s.vals, now))
      decreases |s.nodes| - i
    {
      s.NodesInRepr();
      s.NodeListed(cur);
      s.Walk(i);
      KeyAt(s.nodes, i);
      DumpNext(Keys(s.nodes), s.vals, now, i);
      var cmd := DumpNode(cur, s.vals[cur.key], now);
      if cmd.Some? {
        var resp := FormatRespCommand(cmd.value);
        log := log + resp;
      }
      cur := cur.next;
      i := i + 1;
    }
    KeyCount(s.nodes);
  }

  lemma KeyAt(nodes: seq<DrutaNode>, i: nat)
    requires i < |nodes|
    ensures |Keys(nodes)| == |nodes| && Keys(nodes)[i] == nodes[i].key
  {}

  lemma KeyCount(nodes: seq<DrutaNode>)
    ensures |Keys(nodes)| == |nodes| && Keys(nodes)[..|nodes|] == Keys(nodes)
  {}

  lemma DumpNothing(keys: seq<string>, vals: Values, now: int)
    ensures FormatAll(Dump(keys[..0], vals, now)) == ""
  {}

  lemma DumpNext(keys: seq<string>, vals: Values, now: int, i: nat)
    requires i < |keys| && keys[i] in vals
    ensures FormatAll(Dump(keys[..i + 1], vals, now)) ==
            FormatAll(Dump(keys[..i], vals, now))
            + if Kept(vals[keys[i]], now) then Format(DumpValue(keys[i], vals[keys[i]])) else ""
  {
    var more := keys[..i + 1];
    assert more[..|more| - 1] == keys[..i] && more[|more| - 1] == keys[i];
    var last := DumpKey(keys[i], vals, now);
    FormatAllConcat(Dump(keys[..i], vals, now), last);
    if Kept(vals[keys[i]], now) {
      FormatOne(DumpValue(keys[i], vals[keys[i]]));
    }
  }

  // ---------- the running server ----------

  class Server {
    const store: Store
    const registry: PubSub.Registry
    var log: string
    var parsers: map<PubSub.Descriptor, RespParser>

    ghost function Footprint(): set<object>
      reads store`Repr
    {
      {this, registry} + store.Repr
    }

    ghost predicate Valid()
      reads store, store.Repr, store.nodes, store.index.Values`value,
            Owned(store.index.Values)`rep, Owned(store.index.Values)`memoryUsage
    {
      && this !in store.Repr && registry !in store.Repr
      && store.Valid() && Fits(store.vals)
    }

    ghost function Abs(): World
      reads this`log, store, registry
    {
      World(Sys(store.Abs(), log), registry.Abs())
    }

    /** Every client has a parser of its own. */
    ghost predicate OwnParsers()
      reads this`parsers, store`Repr
    {
      && (forall fd :: fd in parsers ==> parsers[fd] !in store.Repr)
      && (forall f, g :: f in parsers && g in parsers && f != g ==> parsers[f] != parsers[g])
    }

    ghost function States(): map<PubSub.Descriptor, Parser>
      reads this`parsers, parsers.Values
    {
      map fd | fd in parsers :: parsers[fd].Current()
    }

    /** The whole server as a value, while the process runs and after it has ended. */
    ghost function Seen(up: bool): Net
      reads this, store, registry, parsers.Values
    {
      Net(Abs(), if up then States() else map[], up)
    }

    constructor ()
      ensures Valid() && fresh(Footprint()) && Abs() == World(FRESH, PubSub.NOBODY)
      ensures parsers == map[]
    {
      parsers := map[];
      store := new Store();
      registry := new PubSub.Registry();
      log := "";
      new;
      TotalEmpty();
    }

    /** SUBSCRIBE, UNSUBSCRIBE and PUBLISH. */
    method Register(fd: PubSub.Descriptor, cmd: string, args: Command) returns (sent: seq<PubSub.Descriptor>)
      requires args != [] && cmd == ToUpper(args[0]) && fd in registry.clientsMap
      modifies registry
      ensures registry.Abs() == Registered(old(registry.Abs()), fd, args)
      ensures forall g :: g in sent <==> g in Told(old(registry.Abs()), args)
      ensures forall i, j :: 0 <= i < j < |sent| ==> sent[i] != sent[j]
    {
      sent := [];
      if cmd == "SUBSCRIBE" && |args| >= 2 {
        registry.Subscribe(fd, args);
      } else if cmd == "UNSUBSCRIBE" {
        registry.Unsubscribe(fd, args);
      } else if cmd == "PUBLISH" && |args| == 3 {
        var affected;
        sent, affected := registry.Publish(args[1]);
      }
    }

    /** The store handlers, FLUSHDB's truncation of the log, and the append. */
    method ExecuteAndLog(fd: PubSub.Descriptor, args: Command, now: int) returns (reply: Reply)
      requires Valid() && args != [] && Safe(store.Abs(), args, now)
      modifies this`log, store.Repr
      ensures Valid() && fresh(store.Repr - old(store.Repr))
      ensures Abs().sys == Logged(old(Abs().sys), fd, args, now)
      ensures reply == Exec(old(Abs().sys.db), args, now).reply
      ensures registry.Abs() == old(registry.Abs())
    {
      hide Store.Structure, Total, Safe, Settle, OpOf;
      store.NodesInRepr();
      WipesIff(store.vals, args, now);
      var success;
      reply, success := Handlers.Execute(store, args, now);
      store.NodesInRepr();
      if OpOf(args) == OpFlushDb && |args| >= 2 && args[1] == "--sure" {
        log := "";
      }
      if fd != REPLAY && success {
        log := AppendToAof(log, args);
      }
    }

    /** handle_command: the gate, the handlers, and the log; what is replied, and to
        whom a message is sent. */
    method HandleCommand(fd: PubSub.Descriptor, args: Command, now: int)
      returns (reply: Reply, sent: seq<PubSub.Descriptor>)
      requires Valid() && args != [] && Admissible(Abs(), fd, args, now)
      modifies this`log, registry, store.Repr
      ensures Valid() && fresh(store.Repr - old(store.Repr))
      ensures Abs() == Handle(old(Abs()), fd, args, now)
      ensures reply == Answer(old(Abs()), fd, args, now)
      ensures forall g :: g in sent <==> g in Audience(old(Abs()), fd, args)
      ensures forall i, j :: 0 <= i < j < |sent| ==> sent[i] != sent[j]
    {
      hide Store.Structure, Total, Safe, Logged, Registered;
      store.NodesInRepr();
      var cmd := UpperCase(args[0]);
      var isSubscriber := registry.IsSubscriber(fd);
      if isSubscriber && cmd != "PING" && cmd != "SUBSCRIBE" && cmd != "UNSUBSCRIBE" {
        return Failed, [];
      }
      sent := Register(fd, cmd, args);
      reply := ExecuteAndLog(fd, args, now);
    }

    lemma Standing()
      requires Valid()
      ensures this !in store.Repr && registry !in store.Repr
    {}

    /** A client entry with a new parser. */
    method AddParser(fd: PubSub.Descriptor)
      requires OwnParsers()
      modifies this`parsers
      ensures OwnParsers() && States() == old(States())[fd := INITIAL]
      ensures fd in parsers && fresh(parsers[fd]) && parsers == old(parsers)[fd := parsers[fd]]
    {
      var parser := new RespParser();
      parsers := parsers[fd := parser];
    }

    method DropParser(fd: PubSub.Descriptor)
      requires OwnParsers()
      modifies this`parsers
      ensures OwnParsers() && States() == old(States()) - {fd}
    {
      parsers := parsers - {fd};
    }

    /** A client is accepted, and a client goes. */
    method Connect(fd: PubSub.Descriptor)
      requires Valid() && OwnParsers()
      modifies this`parsers, registry
      ensures Valid() && OwnParsers() && store.Repr == old(store.Repr)
      ensures Seen(true) == Serve(old(Seen(true)), Join(fd))
    {
      hide Store.Structure, Total, OwnParsers, States;
      store.NodesInRepr();
      AddParser(fd);
      registry.Connect(fd);
    }

    method Disconnect(fd: PubSub.Descriptor)
      requires Valid() && OwnParsers()
      modifies this`parsers, registry
      ensures Valid() && OwnParsers() && store.Repr == old(store.Repr)
      ensures Seen(true) == Serve(old(Seen(true)), Leave(fd))
    {
      hide Store.Structure, Total, OwnParsers, States;
      store.NodesInRepr();
      DropParser(fd);
      registry.Disconnect(fd);
    }

    /** The bytes of one read go through the client's parser. False when the process has
        ended on them. */
    method Receive(fd: PubSub.Descriptor, bytes: string, now: int) returns (up: bool)
      requires Valid() && OwnParsers()
      requires AllSafe(Abs(), fd, Feed(ParserOf(Seen(true), fd), bytes).commands, now)
      modifies this`log, this`parsers, registry, store.Repr, parsers.Values
      ensures Valid() && OwnParsers() && fresh(store.Repr - old(store.Repr))
      ensures Seen(up) == Serve(old(Seen(true)), Bytes(fd, bytes, now))
    {
      hide Valid, Feed, AllSafe, HandleAll, Store.Abs, PubSub.Registry.Abs;
      ghost var before := Seen(true);
      LookUp(fd);
      assert parsers[fd].Current() == States()[fd];
      hide OwnParsers, States;
      ghost var p := ParserOf(before, fd);
      up := Consume(fd, bytes, now);
      if up { UpdateTwice(before.parsers, fd, p, Feed(p, bytes).end.value); }
    }

    /** The client entry that bytes go to; an unknown client gets one. */
    method LookUp(fd: PubSub.Descriptor)
      requires Valid() && OwnParsers()
      modifies this`parsers
      ensures Valid() && OwnParsers() && Abs() == old(Abs()) && store.Repr == old(store.Repr)
      ensures fd in parsers && (fresh(parsers[fd]) || parsers[fd] in old(parsers.Values))
      ensures States() == old(States())[fd := ParserOf(old(Seen(true)), fd)]
    {
      hide Store.Structure, Total;
      store.NodesInRepr();
      if fd !in parsers {
        AddParser(fd);
      } else {
        assert States() == States()[fd := parsers[fd].Current()];
      }
    }

    method Consume(fd: PubSub.Descriptor, bytes: string, now: int) returns (up: bool)
      requires Valid() && OwnParsers() && fd in parsers
      requires AllSafe(Abs(), fd, Feed(parsers[fd].Current(), bytes).commands, now)
      modifies this`log, registry, store.Repr, parsers[fd]
      ensures Valid() && OwnParsers() && fresh(store.Repr - old(store.Repr))
      ensures var fed := Feed(old(parsers[fd].Current()), bytes);
              && Abs() == HandleAll(old(Abs()), fd, fed.commands, now) && up == fed.end.Some?
              && (up ==> States() == old(States())[fd := fed.end.value])
    {
      hide Valid, Feed, AllSafe, HandleAll, Store.Abs, PubSub.Registry.Abs;
      Standing();
      up := ParseAndExecute(parsers[fd], bytes, fd, now);
      assert forall g :: g in parsers && g != fd ==> parsers[g].Current() == old(parsers[g].Current());
    }

    /** rewrite_aof, the new file replacing the old one at once. */
    method RewriteLog(now: int)
      requires Valid()
      modifies this`log
      ensures Valid() && store.Repr == old(store.Repr)
      ensures Abs() == World(Next(old(Abs()).sys, Rewrite(now)), old(Abs()).registry)
    {
      hide Store.Structure, Total;
      store.NodesInRepr();
      log := RewriteAof(store, now);
    }

    /** The parse loop over one read: every completed command is handled before the
        next byte is looked at. False when an array size is no int, which ends the
        process. */
    method ParseAndExecute(parser: RespParser, bytes: string, fd: PubSub.Descriptor, now: int)
      returns (ok: bool)
      requires Valid() && parser !in Footprint()
      requires AllSafe(Abs(), fd, Feed(parser.Current(), bytes).commands, now)
      modifies this`log, registry, store.Repr, parser
      ensures Valid() && fresh(store.Repr - old(store.Repr))
      ensures var fed := Feed(old(parser.Current()), bytes);
              Abs() == HandleAll(old(Abs()), fd, fed.commands, now)
              && ok == fed.end.Some? && (ok ==> parser.Current() == fed.end.value)
    {
      ghost var fed := Feed(parser.Current(), bytes);
      for i := 0 to |bytes|
        invariant Valid() && fresh(store.Repr - old(store.Repr)) && parser !in store.Repr
        invariant Feed(parser.Current(), bytes[i..]).end == fed.end
        invariant HandleAll(Abs(), fd, Feed(parser.Current(), bytes[i..]).commands, now)
               == HandleAll(old(Abs()), fd, fed.commands, now)
        invariant AllSafe(Abs(), fd, Feed(parser.Current(), bytes[i..]).commands, now)
      {
        hide Valid, Step, Handle, Safe, AllSafe, Admissible;
        DispatchIsCommand(parser.Current(), bytes[i]);
        assert bytes[i..][0] == bytes[i] && bytes[i..][1..] == bytes[i + 1..];
        ok := HandleByte(parser, bytes[i], bytes[i + 1..], fd, now);
        if !ok {
          return;
        }
      }
      assert bytes[|bytes|..] == "";
      ok := true;
    }

    method HandleByte(parser: RespParser, c: char, ghost rest: string, fd: PubSub.Descriptor, now: int)
      returns (ok: bool)
      requires Valid() && parser !in Footprint()
      requires AllSafe(Abs(), fd, Feed(parser.Current(), [c] + rest).commands, now)
      modifies this`log, registry, store.Repr, parser
      ensures Valid() && fresh(store.Repr - old(store.Repr))
      ensures var e := Step(old(parser.Current()), c);
              && ok == !e.Fault? && (ok ==> parser.Current() == e.next)
              && Abs() == (if e.Dispatch? then Handle(old(Abs()), fd, e.command, now) else old(Abs()))
      ensures ok ==> AllSafe(Abs(), fd, Feed(parser.Current(), rest).commands, now)
    {
      hide Store.Structure, Total, Safe, Handle, Step, AllSafe;
      store.NodesInRepr();
      assert ([c] + rest)[1..] == rest;
      ghost var e := Step(parser.Current(), c);
      if e.Dispatch? {
        DispatchIsCommand(parser.Current(), c);
        AllSafeCons(Abs(), fd, e.command, Feed(e.next, rest).commands, now);
      }
      var command;
      ok, command := parser.Accept(c);
      assert Abs() == old(Abs());
      if command.Some? {
        var reply, sent := HandleCommand(fd, command.value, now);
      }
    }
  }

  lemma UpdateTwice<K, V>(m: map<K, V>, k: K, v: V, w: V)
    ensures m[k := v][k := w] == m[k := w]
  {}

  lemma WipesIff(vals: Values, args: Command, now: int)
    ensures Apply(vals, args, now).effect == Wipe
            <==> OpOf(args) == OpFlushDb && |args| >= 2 && args[1] == "--sure"
  {
    hide ToUpper, ParseExpiry, PushAll, TakeItems, WriteAll, DeleteAll, CreatedCount, DeletedCount, Pairs,
         Elements, PresentCount, PopCount, Popped, Hash.Fields;
  }

  // ---------- starting again from the log ----------

  lemma LoggedNames(name: string)
    requires IsLogged(name)
    ensures name != "SUBSCRIBE" && name != "UNSUBSCRIBE" && name != "PUBLISH" && name != "FLUSHDB"
  {}

  predicate Unsubscribed(registry: PubSub.State, fd: PubSub.Descriptor) {
    fd in registry.clients ==> !registry.clients[fd].isSubscriber
  }

  lemma ReplayHandles(w: World, args: Command, clock: int)
    requires args != [] && IsLogged(ToUpper(args[0])) && Unsubscribed(w.registry, REPLAY)
    ensures Handle(w, REPLAY, args, clock) ==
            World(Sys(Exec(w.sys.db, args, clock).db, w.sys.log), PubSub.Touched(w.registry, REPLAY))
    ensures Unsubscribed(PubSub.Touched(w.registry, REPLAY), REPLAY)
  {
    hide ToUpper, Apply, Settle;
    LoggedNames(ToUpper(args[0]));
    NotFlush(args);
    WipesIff(w.sys.db.vals, args, clock);
  }

  lemma NotFlush(args: Command)
    requires args != [] && ToUpper(args[0]) != "FLUSHDB"
    ensures OpOf(args) != OpFlushDb
  {}

  /** The registry after a replay: its descriptor has been looked up. */
  function Visited(registry: PubSub.State, commands: seq<Command>): PubSub.State {
    if commands == [] then registry else PubSub.Touched(registry, REPLAY)
  }

  /** Handling the commands of a log for the replay descriptor is executing them on
      the store: nothing is gated and nothing is logged again. */
  lemma {:induction false} ReplayIsExec(w: World, commands: seq<Command>, clock: int)
    requires AllLogged(commands) && Unsubscribed(w.registry, REPLAY)
    ensures HandleAll(w, REPLAY, commands, clock) ==
            World(Sys(ExecAll(w.sys.db, commands, clock), w.sys.log), Visited(w.registry, commands))
    ensures SafeRun(w.sys.db, commands, clock) ==> AllSafe(w, REPLAY, commands, clock)
    decreases |commands|
  {
    hide Handle, Exec, Safe, Unsubscribed, IsLogged;
    if commands != [] {
      ReplayHandles(w, commands[0], clock);
      ReplayIsExec(Handle(w, REPLAY, commands[0], clock), commands[1..], clock);
    }
  }

  /** A process that has just started, next to a log file. */
  function Started(log: string): World {
    World(Sys(EMPTY, log), PubSub.NOBODY)
  }

  /** A new server reads the log file: it handles the commands in it, whatever they
      are, for the replay descriptor. */
  method ReplayAof(bytes: string, clock: int) returns (server: Server, ok: bool)
    requires AllSafe(Started(bytes), REPLAY, Feed(INITIAL, bytes).commands, clock)
    ensures fresh(server.Footprint()) && server.Valid() && server.parsers == map[]
    ensures var fed := Feed(INITIAL, bytes);
            server.Abs() == HandleAll(Started(bytes), REPLAY, fed.commands, clock) && ok == fed.end.Some?
  {
    hide Store.Structure, Total, Feed, AllSafe, HandleAll;
    server := new Server();
    server.store.NodesInRepr();
    server.log := bytes;
    var parser := new RespParser();
    ok := server.ParseAndExecute(parser, bytes, REPLAY, clock);
  }

  /** Rewrite the log, lose the process, start a new one from the file: the new
      server holds the kept keys, reloaded, in the old recency order. */
  method Reopen(server: Server, now: int, clock: int) returns (next: Server)
    requires server.Valid() && ExpiriesFit(server.store.vals)
    modifies server`log
    ensures next.Valid()
    ensures next.Abs().sys.db == Restored(old(server.Abs()).sys.db, now)
    ensures next.log == server.log
  {
    hide Store.Structure, Total, Feed, SafeRun, AllLogged, ExecAll, Dump, Restored, Consistent;
    server.store.NodesInRepr();
    server.store.AbsConsistent();
    ghost var db := server.store.Abs();
    server.RewriteLog(now);
    RewriteRoundTrip(db, now, clock);
    DumpSized(db.order, db.vals, now);
    LogRoundTrip(Dump(db.order, db.vals, now));
    RewriteIsSafe(db, now, clock, |db.order|);
    assert db.order[..|db.order|] == db.order;
    ReplayIsExec(Started(server.log), Dump(db.order, db.vals, now), clock);
    var ok;
    next, ok := ReplayAof(server.log, clock);
  }

  // ---------- everything that happens to a server ----------

  /** A server with the parsers of its clients; `up` is false after an exception that
      nobody catches has ended the process. */
  datatype Net = Net(world: World, parsers: map<PubSub.Descriptor, Parser>, up: bool)

  const START := Net(World(FRESH, PubSub.NOBODY), map[], true)

  /** An unknown client's parser starts afresh. */
  function ParserOf(n: Net, fd: PubSub.Descriptor): Parser {
    if fd in n.parsers then n.parsers[fd] else INITIAL
  }

  /** A client connects, disconnects or sends bytes; the log is rewritten; the process
      is lost, the last bytes of its log may be too, and it is started again. */
  datatype Request =
    | Join(fd: PubSub.Descriptor) | Leave(fd: PubSub.Descriptor)
    | Bytes(fd: PubSub.Descriptor, bytes: string, now: int)
    | Compact(now: int) | Fail(lost: nat, now: int)

  ghost function Received(n: Net, fd: PubSub.Descriptor, bytes: string, now: int): Net {
    var fed := Feed(ParserOf(n, fd), bytes);
    var world := HandleAll(n.world, fd, fed.commands, now);
    match fed.end
    case Some(p) => Net(world, n.parsers[fd := p], true)
    case None => Net(world, map[], false)
  }

  /** A new process that has read the log file it found. */
  ghost function Restarted(log: string, now: int): Net {
    var fed := Feed(INITIAL, log);
    Net(World(Sys(Recovered(log, now), log), Visited(PubSub.NOBODY, fed.commands)), map[], fed.end.Some?)
  }

  ghost function Serve(n: Net, r: Request): Net {
    match r
    case Fail(lost, now) => Restarted(Left(n.world.sys.log, lost), now)
    case _ => if n.up then ServeUp(n, r) else n
  }

  ghost function ServeUp(n: Net, r: Request): Net
    requires !r.Fail?
  {
    match r
    case Join(fd) => n.(world := World(n.world.sys, PubSub.Accepted(n.world.registry, fd)),
                        parsers := n.parsers[fd := INITIAL])
    case Leave(fd) => n.(world := World(n.world.sys, PubSub.Departed(n.world.registry, fd)),
                         parsers := n.parsers - {fd})
    case Bytes(fd, bytes, now) => Received(n, fd, bytes, now)
    case Compact(now) => n.(world := World(Next(n.world.sys, Rewrite(now)), n.world.registry))
  }

  ghost function ServeAll(n: Net, requests: seq<Request>): Net
    decreases |requests|
  {
    if requests == [] then n else ServeAll(Serve(n, requests[0]), requests[1..])
  }

  /** Bytes come from clients, never from the replay. */
  predicate FromClients(requests: seq<Request>) {
    forall i :: 0 <= i < |requests| && requests[i].Bytes? ==> requests[i].fd != REPLAY
  }

  // ---------- reads of one client ----------

  lemma {:induction false} HandleAllConcat(w: World, fd: PubSub.Descriptor, a: seq<Command>, b: seq<Command>, now: int)
    ensures HandleAll(w, fd, a + b, now) == HandleAll(HandleAll(w, fd, a, now), fd, b, now)
    decreases |a|
  {
    hide Handle;
    if a == [] {
      assert a + b == b;
    } else {
      assert (a + b)[0] == a[0] && (a + b)[1..] == a[1..] + b;
      HandleAllConcat(if a[0] == [] then w else Handle(w, fd, a[0], now), fd, a[1..], b, now);
    }
  }

  /** Two reads of a client, one after the other, do what one read of both does: to the
      store, the log, the subscriptions, every parser, and whether the process lives. */
  lemma ReadsJoin(n: Net, fd: PubSub.Descriptor, a: string, b: string, now: int)
    requires n.up
    ensures Serve(Serve(n, Bytes(fd, a, now)), Bytes(fd, b, now)) == Serve(n, Bytes(fd, a + b, now))
  {
    hide Feed, HandleAll;
    var first := Feed(ParserOf(n, fd), a);
    FeedConcat(ParserOf(n, fd), a, b);
    if first.end.Some? {
      var rest := Feed(first.end.value, b);
      HandleAllConcat(n.world, fd, first.commands, rest.commands, now);
      if rest.end.Some? {
        assert n.parsers[fd := first.end.value][fd := rest.end.value] == n.parsers[fd := rest.end.value];
      }
    }
  }

  // ---------- the run of a server ----------

  /** The commands of one read that get past the pub/sub gate. */
  ghost function TurnsOfAll(w: World, fd: PubSub.Descriptor, commands: seq<Command>, now: int): seq<Turn>
    decreases |commands|
  {
    if commands == [] then []
    else if commands[0] == [] then TurnsOfAll(w, fd, commands[1..], now)
    else
      var rest := TurnsOfAll(Handle(w, fd, commands[0], now), fd, commands[1..], now);
      if Gated(PubSub.Touched(w.registry, fd), fd, commands[0]) then rest
      else [Client(commands[0], now)] + rest
  }

  ghost function TurnsOf(n: Net, r: Request): seq<Turn> {
    match r
    case Fail(lost, now) => [Crash(lost, now)]
    case Bytes(fd, bytes, now) =>
      if n.up then TurnsOfAll(n.world, fd, Feed(ParserOf(n, fd), bytes).commands, now) else []
    case Compact(now) => if n.up then [Rewrite(now)] else []
    case _ => []
  }

  ghost function Turns(n: Net, requests: seq<Request>): seq<Turn>
    decreases |requests|
  {
    if requests == [] then [] else TurnsOf(n, requests[0]) + Turns(Serve(n, requests[0]), requests[1..])
  }

  lemma {:induction false} HandlingIsRunning(w: World, fd: PubSub.Descriptor, commands: seq<Command>, now: int)
    requires fd != REPLAY
    ensures HandleAll(w, fd, commands, now).sys == Run(w.sys, TurnsOfAll(w, fd, commands, now))
    decreases |commands|
  {
    hide Next, Registered, Gated, Run;
    if commands == [] {
      RunOne(w.sys, Rewrite(now));
    } else if commands[0] == [] {
      HandlingIsRunning(w, fd, commands[1..], now);
    } else {
      var t := Handle(w, fd, commands[0], now);
      HandlingIsRunning(t, fd, commands[1..], now);
      RunOne(w.sys, Client(commands[0], now));
      RunConcat(w.sys, [Client(commands[0], now)], TurnsOfAll(t, fd, commands[1..], now));
    }
  }

  lemma RequestIsRun(n: Net, r: Request)
    requires r.Bytes? ==> r.fd != REPLAY
    ensures Serve(n, r).world.sys == Run(n.world.sys, TurnsOf(n, r))
  {
    hide Next, Run, HandleAll, TurnsOfAll, Feed, Recovered;
    match r
    case Fail(lost, now) => CrashIs(n.world.sys, lost, now);
    case Bytes(fd, bytes, now) =>
      RunOne(n.world.sys, Rewrite(now));
      HandlingIsRunning(n.world, fd, Feed(ParserOf(n, fd), bytes).commands, now);
    case Compact(now) => RunOne(n.world.sys, Rewrite(now));
    case Join(_) => RunOne(n.world.sys, Rewrite(0));
    case Leave(_) => RunOne(n.world.sys, Rewrite(0));
  }

  lemma CrashIs(s: Sys, lost: nat, now: int)
    ensures Run(s, [Crash(lost, now)]) == Sys(Recovered(Left(s.log, lost), now), Left(s.log, lost))
  {
    hide Run, Recovered;
    RunOne(s, Crash(lost, now));
  }

  /** Store and log of a server, whatever bytes any clients send, are those of the run of
      the commands that pass the parsers and the gate. */
  lemma {:induction false} ServingIsRunning(n: Net, requests: seq<Request>)
    requires FromClients(requests)
    ensures ServeAll(n, requests).world.sys == Run(n.world.sys, Turns(n, requests))
    decreases |requests|
  {
    hide Serve, TurnsOf, Run;
    if requests == [] {
      RunOne(n.world.sys, Rewrite(0));
    } else {
      var t := Serve(n, requests[0]);
      RequestIsRun(n, requests[0]);
      ServingIsRunning(t, requests[1..]);
      RunConcat(n.world.sys, TurnsOf(n, requests[0]), Turns(t, requests[1..]));
    }
  }

  // ---------- subscriptions of a running server ----------

  /** accept only hands out a descriptor that is not in use. */
  ghost predicate AllPossible(n: Net, requests: seq<Request>)
    decreases |requests|
  {
    requests == []
    || ((requests[0].Join? ==> PubSub.Possible(n.world.registry, PubSub.Connected(requests[0].fd)))
        && AllPossible(Serve(n, requests[0]), requests[1..]))
  }

  lemma CommandMirrors(registry: PubSub.State, fd: PubSub.Descriptor, args: Command)
    requires args != [] && PubSub.Mirror(registry)
    ensures PubSub.Mirror(Registered(registry, fd, args))
  {
    hide PubSub.Mirror, ToUpper, PubSub.Named, PubSub.WithSubscriptions, PubSub.WithoutSubscriptions,
         PubSub.WithoutGhosts;
    PubSub.SubscribeMirror(registry, fd, args[1..]);
    PubSub.UnsubscribeMirror(registry, fd, PubSub.Named(registry, fd, args[1..]));
    if |args| == 3 { PubSub.PublishReaches(registry, args[1]); }
  }

  lemma {:induction false} HandlingMirrors(w: World, fd: PubSub.Descriptor, commands: seq<Command>, now: int)
    requires PubSub.Mirror(w.registry)
    ensures PubSub.Mirror(HandleAll(w, fd, commands, now).registry)
    decreases |commands|
  {
    hide PubSub.Mirror, Logged, Registered, Gated, PubSub.Touched;
    if commands != [] {
      if commands[0] == [] {
        HandlingMirrors(w, fd, commands[1..], now);
      } else {
        PubSub.TouchedMirror(w.registry, fd);
        CommandMirrors(PubSub.Touched(w.registry, fd), fd, commands[0]);
        HandlingMirrors(Handle(w, fd, commands[0], now), fd, commands[1..], now);
      }
    }
  }

  lemma RequestMirrors(n: Net, r: Request)
    requires r.Join? ==> PubSub.Possible(n.world.registry, PubSub.Connected(r.fd))
    requires PubSub.Mirror(n.world.registry)
    ensures PubSub.Mirror(Serve(n, r).world.registry)
  {
    hide PubSub.Mirror, Next, HandleAll, PubSub.Touched, PubSub.Departed, Feed, Recovered;
    match r
    case Join(fd) => PubSub.AfterMirror(n.world.registry, PubSub.Connected(fd));
    case Leave(fd) => PubSub.DisconnectMirror(n.world.registry, fd);
    case Bytes(fd, bytes, now) =>
      HandlingMirrors(n.world, fd, Feed(ParserOf(n, fd), bytes).commands, now);
    case Compact(_) =>
    case Fail(_, _) =>
      PubSub.NobodyMirrors();
      PubSub.TouchedMirror(PubSub.NOBODY, REPLAY);
  }

  /** Whatever any clients send, the subscription indexes of the server mirror each
      other. */
  lemma {:induction false} ServingMirrors(n: Net, requests: seq<Request>)
    requires AllPossible(n, requests) && PubSub.Mirror(n.world.registry)
    ensures PubSub.Mirror(ServeAll(n, requests).world.registry)
    decreases |requests|
  {
    hide PubSub.Mirror, Serve;
    if requests != [] {
      RequestMirrors(n, requests[0]);
      ServingMirrors(Serve(n, requests[0]), requests[1..]);
    }
  }

  lemma {:induction false} ServeAllConcat(n: Net, a: seq<Request>, b: seq<Request>)
    ensures ServeAll(n, a + b) == ServeAll(ServeAll(n, a), b)
    ensures AllPossible(n, a + b) <==> AllPossible(n, a) && AllPossible(ServeAll(n, a), b)
    decreases |a|
  {
    hide Serve;
    if a == [] {
      assert a + b == b;
    } else {
      assert (a + b)[1..] == a[1..] + b;
      ServeAllConcat(Serve(n, a[0]), a[1..], b);
    }
  }

  lemma ServeOne(n: Net, r: Request)
    ensures ServeAll(n, [r]) == Serve(n, r)
    ensures AllPossible(n, [r]) ==> (r.Join? ==> PubSub.Possible(n.world.registry, PubSub.Connected(r.fd)))
  {
    hide Serve;
    assert [r][1..] == [];
  }

  /** A client that connects starts with nothing its descriptor's last owner has left:
      no half-read command, no subscription, no gate. */
  lemma NewcomerStartsClean(requests: seq<Request>, fd: PubSub.Descriptor)
    requires AllPossible(START, requests + [Join(fd)])
    ensures var n := ServeAll(START, requests + [Join(fd)]);
            n.up ==>
              && ParserOf(n, fd) == INITIAL
              && fd in n.world.registry.clients && n.world.registry.clients[fd] == PubSub.NEW_CLIENT
              && forall c :: fd !in PubSub.SubscribersOf(n.world.registry, c)
  {
    hide PubSub.Mirror, ServeAll, AllPossible;
    ServeAllConcat(START, requests, [Join(fd)]);
    PubSub.NobodyMirrors();
    ServingMirrors(START, requests);
    var n := ServeAll(START, requests);
    ServeOne(n, Join(fd));
    PubSub.NewcomerIsClean(n.world.registry, fd);
  }

  // ---------- durability of the running server ----------

  /** A server that has been sent any bytes is lost, with the last bytes of its log or
      without; a new one is started from what is left of the file. It is the server
      after the failure, and if the whole file is left it agrees with the lost one on
      every key but those the log may drop. */
  method Recover(server: Server, ghost up: bool, ghost requests: seq<Request>, ghost start: int, lost: nat, clock: int)
    returns (next: Server, ok: bool)
    requires server.Valid() && FromClients(requests)
    requires server.Seen(up) == ServeAll(START, requests) && RunOk(FRESH, Turns(START, requests), start)
    ensures next.Valid() && next.OwnParsers() && ok
    ensures next.Seen(ok) == Serve(server.Seen(up), Fail(lost, clock))
    ensures lost == 0 ==> InSync(server.store.vals, next.store.vals, Finish(Turns(START, requests), start))
  {
    hide Store.Structure, Total, Feed, SafeRun, AllLogged, ExecAll, Run, RunOk, InSync, Turns, ServeAll;
    ghost var turns := Turns(START, requests);
    ServingIsRunning(START, requests);
    RunIsDurable(turns, start, clock);
    var file := if lost <= |server.log| then server.log[..|server.log| - lost] else "";
    LeftIsSafe(turns, start, lost, clock);
    ReplayIsExec(Started(file), Feed(INITIAL, file).commands, clock);
    next, ok := ReplayAof(file, clock);
    assert lost == 0 ==> file == server.log;
  }
}

/** What a client of the server may rely on once subscriptions are involved: who may send
    what, what becomes of it, and who hears of it. */
module Gate {
  import opened Text
  import opened Costs
  import opened Keyspace
  import opened Commands
  import opened Resp
  import opened Durability
  import opened Laws
  import opened Server
  import PubSub

  /** A client that has subscribed to something. */
  predicate Listens(w: World, fd: PubSub.Descriptor) {
    fd in w.registry.clients && w.registry.clients[fd].isSubscriber
  }

  // ---------- who may send what ----------

  /** To a client that listens, all names but three are closed: nothing happens, and it is
      told so. */
  lemma ClosedLaw(w: World, fd: PubSub.Descriptor, args: Command, now: int)
    requires args != [] && Listens(w, fd)
    requires ToUpper(args[0]) != "PING" && ToUpper(args[0]) != "SUBSCRIBE" && ToUpper(args[0]) != "UNSUBSCRIBE"
    ensures Handle(w, fd, args, now) == w && Answer(w, fd, args, now) == Failed && Audience(w, fd, args) == {}
  {
    hide ToUpper;
  }

  /** To all others every command is open: it is executed, logged, and answered. */
  lemma OpenLaw(w: World, fd: PubSub.Descriptor, args: Command, now: int)
    requires args != [] && !Listens(w, fd) && fd != REPLAY
    ensures Handle(w, fd, args, now).sys == Next(w.sys, Client(args, now))
    ensures Answer(w, fd, args, now) == Exec(w.sys.db, args, now).reply
  {
    hide ToUpper, Next, Registered, Exec;
  }

  // ---------- subscribing ----------

  /** Neither store nor log is concerned. */
  lemma NotForTheStore(s: Sys, fd: PubSub.Descriptor, args: Command, now: int)
    requires args != []
    requires ToUpper(args[0]) == "SUBSCRIBE" || ToUpper(args[0]) == "UNSUBSCRIBE" || ToUpper(args[0]) == "PUBLISH"
    ensures Logged(s, fd, args, now) == s
  {
    hide ToUpper;
    OtherLaw(s.db, args, now);
  }

  lemma {:induction false} OthersUnmoved(st: PubSub.State, fd: PubSub.Descriptor, cs: seq<string>, g: PubSub.Descriptor)
    requires g != fd
    ensures PubSub.ChannelsOf(PubSub.WithSubscriptions(st, fd, cs), g) == PubSub.ChannelsOf(st, g)
    ensures PubSub.ChannelsOf(PubSub.WithoutSubscriptions(st, fd, cs), g) == PubSub.ChannelsOf(st, g)
    decreases |cs|
  {
    if cs != [] {
      var t := PubSub.Touched(st, fd);
      OthersUnmoved(PubSub.AddOne(t, fd, cs[0]), fd, cs[1..], g);
      OthersUnmoved(PubSub.RemoveOne(st, fd, cs[0]), fd, cs[1..], g);
    }
  }

  /** SUBSCRIBE adds the channels it names, whoever sends it, as long as they are no more
      than 128 in all; the client listens from then on. */
  lemma SubscribeLaw(w: World, fd: PubSub.Descriptor, args: Command, now: int)
    requires PubSub.Mirror(w.registry) && |args| >= 2 && ToUpper(args[0]) == "SUBSCRIBE"
    requires |PubSub.ChannelsOf(w.registry, fd) + (set c | c in args[1..])| <= 128
    ensures var after := Handle(w, fd, args, now);
            && after.sys == w.sys && PubSub.Mirror(after.registry) && Listens(after, fd)
            && PubSub.ChannelsOf(after.registry, fd) ==
               PubSub.ChannelsOf(w.registry, fd) + (set c | c in args[1..])
            && forall g :: g != fd ==> PubSub.ChannelsOf(after.registry, g) == PubSub.ChannelsOf(w.registry, g)
  {
    hide ToUpper, PubSub.Mirror, PubSub.WithSubscriptions, PubSub.ChannelsOf, PubSub.Touched, Logged;
    var st, cs := PubSub.Touched(w.registry, fd), args[1..];
    NotForTheStore(w.sys, fd, args, now);
    PubSub.TouchedMirror(w.registry, fd);
    PubSub.SubscribeMirror(st, fd, cs);
    TouchedIs(w.registry, fd);
    SubscribesAll(st, fd, cs);
    var after := World(w.sys, PubSub.WithSubscriptions(st, fd, cs));
    assert Handle(w, fd, args, now) == after;
    assert cs[0] in PubSub.ChannelsOf(after.registry, fd);
    ListensIff(after, fd);
    forall g | g != fd ensures PubSub.ChannelsOf(after.registry, g) == PubSub.ChannelsOf(w.registry, g) {
      OthersUnmoved(st, fd, cs, g);
    }
  }

  lemma TouchedIs(st: PubSub.State, fd: PubSub.Descriptor)
    ensures fd in PubSub.Touched(st, fd).clients
    ensures forall g :: PubSub.ChannelsOf(PubSub.Touched(st, fd), g) == PubSub.ChannelsOf(st, g)
  {}

  lemma ListensIff(w: World, fd: PubSub.Descriptor)
    requires PubSub.Mirror(w.registry)
    ensures Listens(w, fd) <==> PubSub.ChannelsOf(w.registry, fd) != {}
  {}

  lemma SubscribesAll(st: PubSub.State, fd: PubSub.Descriptor, cs: seq<string>)
    requires |PubSub.ChannelsOf(st, fd) + (set c | c in cs)| <= 128
    ensures PubSub.ChannelsOf(PubSub.WithSubscriptions(st, fd, cs), fd) ==
            PubSub.ChannelsOf(st, fd) + (set c | c in cs)
  {
    hide PubSub.ChannelsOf, PubSub.WithSubscriptions;
    var n := PubSub.SubscribeTakesPrefix(st, fd, cs);
    var mine, all := PubSub.ChannelsOf(st, fd) + Elements(cs[..n]), PubSub.ChannelsOf(st, fd) + (set c | c in cs);
    if n < |cs| {
      assert cs[n] in all && mine + {cs[n]} <= all;
      Fewer(mine + {cs[n]}, all);
    } else {
      assert cs[..n] == cs;
      assert Elements(cs) == (set c | c in cs);
    }
  }

  lemma Fewer(a: set<string>, b: set<string>)
    requires a <= b
    ensures |a| <= |b|
  {
    assert b == a + (b - a);
  }

  /** UNSUBSCRIBE takes away the channels it names, or all if it names none, whether the
      client listens or not; without channels it no longer listens. */
  lemma UnsubscribeLaw(w: World, fd: PubSub.Descriptor, args: Command, now: int)
    requires PubSub.Mirror(w.registry) && args != [] && ToUpper(args[0]) == "UNSUBSCRIBE"
    ensures var after := Handle(w, fd, args, now);
            && after.sys == w.sys && PubSub.Mirror(after.registry)
            && (forall c :: c in PubSub.ChannelsOf(after.registry, fd) <==>
                  c in PubSub.ChannelsOf(w.registry, fd) && |args| > 1 && c !in args[1..])
            && (Listens(after, fd) <==> PubSub.ChannelsOf(after.registry, fd) != {})
            && forall g :: g != fd ==> PubSub.ChannelsOf(after.registry, g) == PubSub.ChannelsOf(w.registry, g)
  {
    hide ToUpper, PubSub.Mirror, PubSub.WithoutSubscriptions, PubSub.ChannelsOf, PubSub.Touched, Logged, Sorted;
    var st := PubSub.Touched(w.registry, fd);
    var cs := PubSub.Named(st, fd, args[1..]);
    NotForTheStore(w.sys, fd, args, now);
    PubSub.TouchedMirror(w.registry, fd);
    PubSub.UnsubscribeMirror(st, fd, cs);
    TouchedIs(w.registry, fd);
    SortedEnumerates(PubSub.ChannelsOf(st, fd));
    var after := World(w.sys, PubSub.WithoutSubscriptions(st, fd, cs));
    assert Handle(w, fd, args, now) == after;
    ListensIff(after, fd);
    forall g | g != fd ensures PubSub.ChannelsOf(after.registry, g) == PubSub.ChannelsOf(w.registry, g) {
      OthersUnmoved(st, fd, cs, g);
    }
  }

  /** PUBLISH goes to exactly the clients subscribed to the channel, and changes nothing
      but that the sender is known. */
  lemma PublishLaw(w: World, fd: PubSub.Descriptor, args: Command, now: int)
    requires PubSub.Mirror(w.registry) && |args| == 3 && ToUpper(args[0]) == "PUBLISH" && !Listens(w, fd)
    ensures Handle(w, fd, args, now) == World(w.sys, PubSub.Touched(w.registry, fd))
    ensures forall g :: g in Audience(w, fd, args) <==>
                        g in w.registry.clients && args[1] in w.registry.clients[g].channels
  {
    hide ToUpper, PubSub.Mirror, Logged;
    var st := PubSub.Touched(w.registry, fd);
    NotForTheStore(w.sys, fd, args, now);
    PubSub.TouchedMirror(w.registry, fd);
    PubSub.PublishReaches(st, args[1]);
  }

  /** With any other number of arguments, PUBLISH goes to nobody. */
  lemma PublishRefused(w: World, fd: PubSub.Descriptor, args: Command, now: int)
    requires args != [] && |args| != 3 && ToUpper(args[0]) == "PUBLISH" && !Listens(w, fd)
    ensures Handle(w, fd, args, now) == World(w.sys, PubSub.Touched(w.registry, fd)) && Audience(w, fd, args) == {}
  {
    hide ToUpper, Logged;
    NotForTheStore(w.sys, fd, args, now);
  }

  /** A rewrite of the log concerns the log alone. */
  lemma CompactLaw(n: Net, now: int)
    ensures var t := Serve(n, Compact(now));
            t.world.sys.db == n.world.sys.db && t.world.registry == n.world.registry
            && t.parsers == n.parsers && t.up == n.up
  {}

  // ---------- a run ----------

  lemma OneCommand(n: Net, fd: PubSub.Descriptor, args: Command, now: int)
    requires n.up && ParserOf(n, fd) == INITIAL && Sized(args)
    ensures var t := Serve(n, Bytes(fd, Format(args), now));
            t.up && ParserOf(t, fd) == INITIAL && t.world == Handle(n.world, fd, args, now)
  {
    hide Feed, Format, Handle, Sized;
    CommandRoundTrip(args);
    assert args != [] by { NotEmpty(args); }
    assert [args][1..] == [];
    assert HandleAll(Handle(n.world, fd, args, now), fd, [], now) == Handle(n.world, fd, args, now);
  }

  lemma NotEmpty(args: Command)
    requires Sized(args)
    ensures args != []
  {}

  /** A client subscribes, is refused a SET, unsubscribes, and then the SET reaches the
      store. */
  lemma SetAfterUnsubscribing(fd: PubSub.Descriptor, now: int)
    requires fd != REPLAY
    ensures var subscribe, unsubscribe := ["SUBSCRIBE", "c"], ["UNSUBSCRIBE", "c"];
            var put := ["SET", "k", "v"];
            var m := ServeAll(START, [Join(fd), Bytes(fd, Format(subscribe), now), Bytes(fd, Format(put), now)]);
            var n := ServeAll(m, [Bytes(fd, Format(unsubscribe), now), Bytes(fd, Format(put), now)]);
            && m.world.sys == FRESH && PubSub.ChannelsOf(m.world.registry, fd) == {"c"}
            && n.world.sys.db == Db(["k"], map["k" := StringValue("v", 0)])
            && PubSub.ChannelsOf(n.world.registry, fd) == {}
  {
    hide Handle, Serve, PubSub.Mirror, PubSub.ChannelsOf, Format, ToUpper, Listens, Sized;
    var subscribe, unsubscribe, put := ["SUBSCRIBE", "c"], ["UNSUBSCRIBE", "c"], ["SET", "k", "v"];
    var first := Join(fd);
    var second, third := Bytes(fd, Format(subscribe), now), Bytes(fd, Format(put), now);
    var fourth := Bytes(fd, Format(unsubscribe), now);
    Spelled(subscribe, unsubscribe, put);
    ServeThree(START, first, second, third);
    Joined(fd);
    var a := Serve(START, first);
    OneCommand(a, fd, subscribe, now);
    SubscribeC(a.world, fd, subscribe, now);
    var b := Serve(a, second);
    OneCommand(b, fd, put, now);
    ClosedLaw(b.world, fd, put, now);
    var c := Serve(b, third);
    ServeTwo(c, fourth, third);
    OneCommand(c, fd, unsubscribe, now);
    UnsubscribeC(c.world, fd, unsubscribe, now);
    var d := Serve(c, fourth);
    OneCommand(d, fd, put, now);
    SetReaches(d.world, fd, put, now);
  }

  lemma Spelled(subscribe: Command, unsubscribe: Command, put: Command)
    requires subscribe == ["SUBSCRIBE", "c"] && unsubscribe == ["UNSUBSCRIBE", "c"] && put == ["SET", "k", "v"]
    ensures ToUpper(subscribe[0]) == "SUBSCRIBE" && ToUpper(unsubscribe[0]) == "UNSUBSCRIBE"
    ensures ToUpper(put[0]) == "SET" && Sized(subscribe) && Sized(unsubscribe) && Sized(put)
  {}

  lemma ServeTwo(n: Net, a: Request, b: Request)
    ensures ServeAll(n, [a, b]) == Serve(Serve(n, a), b)
  {
    hide Serve;
    assert [a, b][1..] == [b] && [b][1..] == [];
    assert ServeAll(Serve(n, a), [b]) == ServeAll(Serve(Serve(n, a), b), []);
  }

  lemma ServeThree(n: Net, a: Request, b: Request, c: Request)
    ensures ServeAll(n, [a, b, c]) == Serve(Serve(Serve(n, a), b), c)
  {
    hide Serve;
    assert [a, b, c][1..] == [b, c];
    ServeTwo(Serve(n, a), b, c);
  }

  lemma Joined(fd: PubSub.Descriptor)
    ensures var n := Serve(START, Join(fd));
            && n.up && ParserOf(n, fd) == INITIAL && n.world.sys == FRESH && PubSub.Mirror(n.world.registry)
            && PubSub.ChannelsOf(n.world.registry, fd) == {}
  {
    PubSub.NobodyMirrors();
    RequestMirrors(START, Join(fd));
  }

  lemma SubscribeC(w: World, fd: PubSub.Descriptor, args: Command, now: int)
    requires PubSub.Mirror(w.registry) && PubSub.ChannelsOf(w.registry, fd) == {}
    requires args == ["SUBSCRIBE", "c"] && ToUpper(args[0]) == "SUBSCRIBE"
    ensures var after := Handle(w, fd, args, now);
            && after.sys == w.sys && PubSub.Mirror(after.registry) && Listens(after, fd)
            && PubSub.ChannelsOf(after.registry, fd) == {"c"}
  {
    hide Handle, PubSub.Mirror, PubSub.ChannelsOf, ToUpper, Listens;
    assert (set c | c in args[1..]) == {"c"};
    assert {} + {"c"} == {"c"};
    SubscribeLaw(w, fd, args, now);
  }

  lemma UnsubscribeC(w: World, fd: PubSub.Descriptor, args: Command, now: int)
    requires PubSub.Mirror(w.registry) && PubSub.ChannelsOf(w.registry, fd) == {"c"}
    requires args == ["UNSUBSCRIBE", "c"] && ToUpper(args[0]) == "UNSUBSCRIBE"
    ensures var after := Handle(w, fd, args, now);
            && after.sys == w.sys && !Listens(after, fd) && PubSub.ChannelsOf(after.registry, fd) == {}
  {
    hide Handle, PubSub.Mirror, PubSub.ChannelsOf, ToUpper, Listens;
    UnsubscribeLaw(w, fd, args, now);
    assert args[1..] == ["c"];
  }

  lemma SetReaches(w: World, fd: PubSub.Descriptor, args: Command, now: int)
    requires w.sys == FRESH && !Listens(w, fd) && fd != REPLAY && args == ["SET", "k", "v"]
    requires PubSub.ChannelsOf(w.registry, fd) == {}
    ensures var after := Handle(w, fd, args, now);
            && after.sys.db == Db(["k"], map["k" := StringValue("v", 0)])
            && PubSub.ChannelsOf(after.registry, fd) == {}
  {
    var v := StringValue("v", 0);
    TotalEmpty();
    TotalPut(map[], "k", v);
    hide Total, Apply, Settle;
    OpenLaw(w, fd, args, now);
    EmptyIsConsistent();
    SetWithoutTime(EMPTY, "k", "v", [], now);
    assert ["SET", "k", "v"] + [] == args;
    SetIsNoSubscription(w, fd, args, now);
  }

  lemma SetIsNoSubscription(w: World, fd: PubSub.Descriptor, args: Command, now: int)
    requires args == ["SET", "k", "v"]
    ensures PubSub.ChannelsOf(Handle(w, fd, args, now).registry, fd) == PubSub.ChannelsOf(w.registry, fd)
  {
    hide Logged;
    assert ToUpper("SET") == "SET";
  }
}

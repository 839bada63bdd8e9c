/** The subscription registry: channel to descriptors and descriptor to channels,
    two indexes that have to mirror each other. */
module PubSub {
  import opened Text

  /** A client's file descriptor. */
  datatype Descriptor = Fd(number: int)

  const MAX_SUBSCRIPTIONS_PER_CLIENT: nat := 128

  datatype Client = Client(isSubscriber: bool, channels: set<string>)

  const NEW_CLIENT := Client(false, {})

  datatype State = State(subscribers: map<string, set<Descriptor>>, clients: map<Descriptor, Client>)

  const NOBODY := State(map[], map[])

  // ---------- the operations as values ----------

  /** clients_map[fd]: an unknown descriptor gets an entry. */
  function Touched(st: State, fd: Descriptor): State {
    if fd in st.clients then st else st.(clients := st.clients[fd := NEW_CLIENT])
  }

  function SubscribersOf(st: State, channel: string): set<Descriptor> {
    if channel in st.subscribers then st.subscribers[channel] else {}
  }

  function ChannelsOf(st: State, fd: Descriptor): set<string> {
    if fd in st.clients then st.clients[fd].channels else {}
  }

  function AddOne(st: State, fd: Descriptor, channel: string): State {
    State(st.subscribers[channel := SubscribersOf(st, channel) + {fd}],
          st.clients[fd := Client(true, ChannelsOf(st, fd) + {channel})])
  }

  /** A new channel when the client has as many as it may. */
  predicate Refuses(st: State, fd: Descriptor, channel: string) {
    channel !in ChannelsOf(st, fd) && |ChannelsOf(st, fd)| >= MAX_SUBSCRIPTIONS_PER_CLIENT
  }

  /** One channel after another, up to the first that would go over the limit. */
  function WithSubscriptions(st: State, fd: Descriptor, channels: seq<string>): State
    decreases |channels|
  {
    if channels == [] then st
    else
      var t := Touched(st, fd);
      if Refuses(t, fd, channels[0]) then t
      else WithSubscriptions(AddOne(t, fd, channels[0]), fd, channels[1..])
  }

  function RemoveOne(st: State, fd: Descriptor, channel: string): State {
    var left := ChannelsOf(st, fd) - {channel};
    var flag := fd in st.clients && st.clients[fd].isSubscriber && left != {};
    State(st.subscribers[channel := SubscribersOf(st, channel) - {fd}],
          st.clients[fd := Client(flag, left)])
  }

  function WithoutSubscriptions(st: State, fd: Descriptor, channels: seq<string>): State
    decreases |channels|
  {
    if channels == [] then Touched(st, fd)
    else WithoutSubscriptions(RemoveOne(st, fd, channels[0]), fd, channels[1..])
  }

  /** The channels an UNSUBSCRIBE names; none means all the client has. */
  function Named(st: State, fd: Descriptor, channels: seq<string>): seq<string> {
    if channels == [] then Sorted(ChannelsOf(st, fd)) else channels
  }

  function Targets(st: State, channel: string): set<Descriptor> {
    SubscribersOf(st, channel) * st.clients.Keys
  }

  /** A publish forgets the subscribers that are no clients. */
  function WithoutGhosts(st: State, channel: string): State {
    if channel in st.subscribers then st.(subscribers := st.subscribers[channel := Targets(st, channel)])
    else st
  }

  function Accepted(st: State, fd: Descriptor): State {
    st.(clients := st.clients[fd := NEW_CLIENT])
  }

  function Forget(st: State, fd: Descriptor, channels: seq<string>): map<string, set<Descriptor>>
    decreases |channels|
  {
    if channels == [] then st.subscribers
    else Forget(st.(subscribers := st.subscribers[channels[0] := SubscribersOf(st, channels[0]) - {fd}]),
                fd, channels[1..])
  }

  /** pubsub_cleanup_client and erasure from the client map. */
  function Departed(st: State, fd: Descriptor): State {
    State(Forget(st, fd, Sorted(ChannelsOf(st, fd))), st.clients - {fd})
  }

  // ---------- the mirror invariant ----------

  ghost predicate ClientOk(c: Client) {
    (c.isSubscriber <==> c.channels != {}) && |c.channels| <= MAX_SUBSCRIPTIONS_PER_CLIENT
  }

  ghost predicate Mirror(st: State) {
    && (forall c, fd :: fd in SubscribersOf(st, c) <==> c in ChannelsOf(st, fd))
    && (forall fd :: fd in st.clients ==> ClientOk(st.clients[fd]))
  }

  lemma TouchedMirror(st: State, fd: Descriptor)
    requires Mirror(st)
    ensures Mirror(Touched(st, fd))
  {
    var t := Touched(st, fd);
    forall c, g ensures g in SubscribersOf(t, c) <==> c in ChannelsOf(t, g) {
      assert g in SubscribersOf(st, c) <==> c in ChannelsOf(st, g);
    }
  }

  lemma AddOneMirror(st: State, fd: Descriptor, channel: string)
    requires Mirror(st) && fd in st.clients
    requires channel in ChannelsOf(st, fd) || |ChannelsOf(st, fd)| < MAX_SUBSCRIPTIONS_PER_CLIENT
    ensures Mirror(AddOne(st, fd, channel))
  {
    var t := AddOne(st, fd, channel);
    forall c, g ensures g in SubscribersOf(t, c) <==> c in ChannelsOf(t, g) {
      assert g in SubscribersOf(st, c) <==> c in ChannelsOf(st, g);
    }
    var before := ChannelsOf(st, fd);
    if channel in before { assert before + {channel} == before; }
    assert ClientOk(t.clients[fd]);
  }

  lemma RemoveOneMirror(st: State, fd: Descriptor, channel: string)
    requires Mirror(st)
    ensures Mirror(RemoveOne(st, fd, channel))
  {
    hide RemoveOne, SubscribersOf, ChannelsOf, ClientOk;
    RemoveOneClient(st, fd, channel);
    var t := RemoveOne(st, fd, channel);
    forall c, g ensures g in SubscribersOf(t, c) <==> c in ChannelsOf(t, g) {
      RemoveOneIs(st, fd, channel, c, g);
      assert g in SubscribersOf(st, c) <==> c in ChannelsOf(st, g);
    }
  }

  lemma RemoveOneIs(st: State, fd: Descriptor, channel: string, c: string, g: Descriptor)
    ensures var t := RemoveOne(st, fd, channel);
            && (g in SubscribersOf(t, c) <==> g in SubscribersOf(st, c) && !(c == channel && g == fd))
            && (c in ChannelsOf(t, g) <==> c in ChannelsOf(st, g) && !(c == channel && g == fd))
  {}

  lemma RemoveOneClient(st: State, fd: Descriptor, channel: string)
    requires fd in st.clients ==> ClientOk(st.clients[fd])
    ensures var t := RemoveOne(st, fd, channel);
            t.clients == st.clients[fd := t.clients[fd]] && ClientOk(t.clients[fd])
  {
    var before := ChannelsOf(st, fd);
    var left := before - {channel};
    assert |left| <= |before| by { assert before == left + (before * {channel}); }
  }

  lemma {:induction false} SubscribeMirror(st: State, fd: Descriptor, channels: seq<string>)
    requires Mirror(st)
    ensures Mirror(WithSubscriptions(st, fd, channels))
    decreases |channels|
  {
    hide Mirror, AddOne;
    if channels != [] {
      var t := Touched(st, fd);
      TouchedMirror(st, fd);
      if channels[0] in ChannelsOf(t, fd) || |ChannelsOf(t, fd)| < MAX_SUBSCRIPTIONS_PER_CLIENT {
        AddOneMirror(t, fd, channels[0]);
        SubscribeMirror(AddOne(t, fd, channels[0]), fd, channels[1..]);
      }
    }
  }

  /** A SUBSCRIBE takes the channels it names in order, all of them or up to the
      first new one that finds the client at its limit. */
  lemma {:induction false} SubscribeTakesPrefix(st: State, fd: Descriptor, channels: seq<string>)
    returns (n: nat)
    ensures n <= |channels|
    ensures ChannelsOf(WithSubscriptions(st, fd, channels), fd) == ChannelsOf(st, fd) + Elements(channels[..n])
    ensures n < |channels| ==>
              var mine := ChannelsOf(WithSubscriptions(st, fd, channels), fd);
              channels[n] !in mine && |mine| >= MAX_SUBSCRIPTIONS_PER_CLIENT
    decreases |channels|
  {
    n := 0;
    hide Elements, AddOne, ChannelsOf, Touched;
    ElementsOfNothing();
    TouchedChannels(st, fd);
    assert channels[..0] == [];
    if channels != [] && !Refuses(Touched(st, fd), fd, channels[0]) {
      var next := AddOne(Touched(st, fd), fd, channels[0]);
      var m := SubscribeTakesPrefix(next, fd, channels[1..]);
      n := m + 1;
      ElementsCons(channels, m);
      AddOneChannels(Touched(st, fd), fd, channels[0]);
      assert channels[1..][m..] == channels[n..];
      SetAssociates(ChannelsOf(st, fd), channels[0], Elements(channels[1..][..m]));
    }
  }

  lemma SetAssociates(a: set<string>, x: string, b: set<string>)
    ensures a + {x} + b == a + ({x} + b)
  {}

  lemma TouchedChannels(st: State, fd: Descriptor)
    ensures ChannelsOf(Touched(st, fd), fd) == ChannelsOf(st, fd)
  {}

  lemma ElementsOfNothing()
    ensures Elements([]) == {}
  {}

  lemma ElementsCons(channels: seq<string>, m: nat)
    requires m < |channels|
    ensures Elements(channels[..m + 1]) == {channels[0]} + Elements(channels[1..][..m])
  {
    assert channels[..m + 1] == [channels[0]] + channels[1..][..m];
  }

  lemma AddOneChannels(st: State, fd: Descriptor, channel: string)
    ensures ChannelsOf(AddOne(st, fd, channel), fd) == ChannelsOf(st, fd) + {channel}
  {}

  lemma {:induction false} UnsubscribeMirror(st: State, fd: Descriptor, channels: seq<string>)
    requires Mirror(st)
    ensures Mirror(WithoutSubscriptions(st, fd, channels))
    ensures forall c :: c in ChannelsOf(WithoutSubscriptions(st, fd, channels), fd) <==>
                        c in ChannelsOf(st, fd) && c !in channels
    decreases |channels|
  {
    hide Mirror;
    if channels == [] {
      TouchedMirror(st, fd);
    } else {
      RemoveOneMirror(st, fd, channels[0]);
      UnsubscribeMirror(RemoveOne(st, fd, channels[0]), fd, channels[1..]);
    }
  }

  /** Cleaning up touches the one descriptor in exactly its own channels. */
  lemma {:induction false} ForgetIs(st: State, fd: Descriptor, channels: seq<string>)
    ensures forall c, g :: g in SubscribersOf(State(Forget(st, fd, channels), st.clients), c) <==>
                           g in SubscribersOf(st, c) && !(g == fd && c in channels)
    decreases |channels|
  {
    if channels != [] {
      var next := st.(subscribers := st.subscribers[channels[0] := SubscribersOf(st, channels[0]) - {fd}]);
      ForgetIs(next, fd, channels[1..]);
      forall c, g ensures g in SubscribersOf(State(Forget(st, fd, channels), st.clients), c) <==>
                          g in SubscribersOf(st, c) && !(g == fd && c in channels) {
        assert g in SubscribersOf(State(Forget(next, fd, channels[1..]), next.clients), c) <==>
               g in SubscribersOf(next, c) && !(g == fd && c in channels[1..]);
      }
    }
  }

  /** After a disconnect the descriptor is gone from both indexes. */
  lemma DisconnectMirror(st: State, fd: Descriptor)
    requires Mirror(st)
    ensures Mirror(Departed(st, fd))
    ensures fd !in Departed(st, fd).clients
    ensures forall c :: fd !in SubscribersOf(Departed(st, fd), c)
  {
    var channels := Sorted(ChannelsOf(st, fd));
    SortedEnumerates(ChannelsOf(st, fd));
    hide Forget, Sorted;
    ForgetIs(st, fd, channels);
    var t := Departed(st, fd);
    forall c, g ensures g in SubscribersOf(t, c) <==> c in ChannelsOf(t, g) {
      assert g in SubscribersOf(State(Forget(st, fd, channels), st.clients), c) <==>
             g in SubscribersOf(st, c) && !(g == fd && c in channels);
      assert g in SubscribersOf(st, c) <==> c in ChannelsOf(st, g);
    }
    forall c ensures fd !in SubscribersOf(t, c) {
      assert fd in SubscribersOf(t, c) <==> c in ChannelsOf(t, fd);
    }
  }

  /** A publish reaches exactly the live clients subscribed to the channel, and its
      list of ghosts is always empty. */
  lemma PublishReaches(st: State, channel: string)
    requires Mirror(st)
    ensures forall fd :: fd in Targets(st, channel) <==> fd in st.clients && channel in st.clients[fd].channels
    ensures SubscribersOf(st, channel) - Targets(st, channel) == {}
    ensures WithoutGhosts(st, channel) == st
  {
    forall fd | fd in SubscribersOf(st, channel) ensures fd in st.clients {
      assert channel in ChannelsOf(st, fd);
    }
    forall fd | fd in st.clients && channel in st.clients[fd].channels ensures fd in Targets(st, channel) {
      assert channel in ChannelsOf(st, fd);
    }
    forall fd | fd in Targets(st, channel) ensures channel in st.clients[fd].channels {
      assert channel in ChannelsOf(st, fd);
    }
    assert Targets(st, channel) == SubscribersOf(st, channel);
    if channel in st.subscribers {
      assert st.subscribers[channel := st.subscribers[channel]] == st.subscribers;
    }
  }

  // ---------- every interleaving ----------

  datatype Event =
    | Connected(fd: Descriptor) | Disconnected(fd: Descriptor)
    | Subscribed(fd: Descriptor, channels: seq<string>)
    | Unsubscribed(fd: Descriptor, channels: seq<string>)
    | Published(fd: Descriptor, channel: string)

  function After(st: State, e: Event): State {
    match e
    case Connected(fd) => Accepted(st, fd)
    case Disconnected(fd) => Departed(st, fd)
    case Subscribed(fd, channels) => WithSubscriptions(Touched(st, fd), fd, channels)
    case Unsubscribed(fd, channels) => WithoutSubscriptions(Touched(st, fd), fd, Named(st, fd, channels))
    case Published(fd, channel) => WithoutGhosts(Touched(st, fd), channel)
  }

  /** accept only hands out a descriptor that is not in use. */
  predicate Possible(st: State, e: Event) {
    e.Connected? ==> e.fd !in st.clients
  }

  ghost predicate AllPossible(st: State, events: seq<Event>)
    decreases |events|
  {
    events == [] || (Possible(st, events[0]) && AllPossible(After(st, events[0]), events[1..]))
  }

  function AfterAll(st: State, events: seq<Event>): State
    decreases |events|
  {
    if events == [] then st else AfterAll(After(st, events[0]), events[1..])
  }

  lemma AfterMirror(st: State, e: Event)
    requires Mirror(st) && Possible(st, e)
    ensures Mirror(After(st, e))
  {
    TouchedMirror(st, e.fd);
    match e
    case Connected(fd) => assert Accepted(st, fd) == Touched(st, fd);
    case Disconnected(fd) => DisconnectMirror(st, fd);
    case Subscribed(fd, channels) => SubscribeMirror(Touched(st, fd), fd, channels);
    case Unsubscribed(fd, channels) => UnsubscribeMirror(Touched(st, fd), fd, Named(st, fd, channels));
    case Published(fd, channel) => PublishReaches(Touched(st, fd), channel);
  }

  lemma {:induction false} OthersStay(st: State, fd: Descriptor, channels: seq<string>, g: Descriptor)
    requires g != fd
    ensures var s, t := WithSubscriptions(st, fd, channels), WithoutSubscriptions(st, fd, channels);
            && (g in s.clients <==> g in st.clients) && (g in t.clients <==> g in st.clients)
            && (g in st.clients ==> s.clients[g] == t.clients[g] == st.clients[g])
    decreases |channels|
  {
    if channels != [] {
      OthersStay(AddOne(Touched(st, fd), fd, channels[0]), fd, channels[1..], g);
      OthersStay(RemoveOne(st, fd, channels[0]), fd, channels[1..], g);
    }
  }

  /** What happens to one client does not concern the others: they stay connected, and
      subscribed to what they were. */
  lemma AfterOthers(st: State, e: Event, g: Descriptor)
    requires Mirror(st) && Possible(st, e) && g != e.fd
    ensures var t := After(st, e);
            && (g in t.clients <==> g in st.clients) && (g in st.clients ==> t.clients[g] == st.clients[g])
            && forall c :: g in SubscribersOf(t, c) <==> g in SubscribersOf(st, c)
  {
    hide Mirror, SubscribersOf, Departed;
    AfterMirror(st, e);
    var t := After(st, e);
    match e {
      case Subscribed(fd, channels) => OthersStay(Touched(st, fd), fd, channels, g);
      case Unsubscribed(fd, channels) => OthersStay(Touched(st, fd), fd, Named(st, fd, channels), g);
      case Disconnected(fd) => LeavesOthers(st, fd, g);
      case _ =>
    }
    forall c ensures g in SubscribersOf(t, c) <==> g in SubscribersOf(st, c) {
      MirrorAt(st, c, g);
      MirrorAt(t, c, g);
    }
  }

  lemma LeavesOthers(st: State, fd: Descriptor, g: Descriptor)
    requires g != fd
    ensures g in Departed(st, fd).clients <==> g in st.clients
    ensures g in st.clients ==> Departed(st, fd).clients[g] == st.clients[g]
  {}

  lemma MirrorAt(st: State, c: string, g: Descriptor)
    requires Mirror(st)
    ensures g in SubscribersOf(st, c) <==> c in ChannelsOf(st, g)
  {}

  /** Whatever clients do in whatever order, the two indexes mirror each other. */
  lemma {:induction false} MirrorAlways(st: State, events: seq<Event>)
    requires Mirror(st) && AllPossible(st, events)
    ensures Mirror(AfterAll(st, events))
    decreases |events|
  {
    hide Mirror, After;
    if events != [] {
      AfterMirror(st, events[0]);
      MirrorAlways(After(st, events[0]), events[1..]);
    }
  }

  lemma NobodyMirrors()
    ensures Mirror(NOBODY)
  {}

  /** A descriptor that is handed out starts with no subscription, whatever its last
      owner did and whatever others did since. */
  lemma ReusedDescriptorIsClean(events: seq<Event>, fd: Descriptor)
    requires AllPossible(NOBODY, events + [Connected(fd)])
    ensures var st := AfterAll(NOBODY, events + [Connected(fd)]);
            fd in st.clients && st.clients[fd] == NEW_CLIENT && forall c :: fd !in SubscribersOf(st, c)
  {
    hide Mirror;
    AfterAllConcat(NOBODY, events, [Connected(fd)]);
    NobodyMirrors();
    MirrorAlways(NOBODY, events);
    var st := AfterAll(NOBODY, events);
    assert [Connected(fd)][1..] == [];
    assert AfterAll(st, [Connected(fd)]) == AfterAll(Accepted(st, fd), []);
    NewcomerIsClean(st, fd);
  }

  lemma NewcomerIsClean(st: State, fd: Descriptor)
    requires Mirror(st) && fd !in st.clients
    ensures forall c :: fd !in SubscribersOf(Accepted(st, fd), c)
  {
    forall c ensures fd !in SubscribersOf(Accepted(st, fd), c) {
      assert fd in SubscribersOf(st, c) <==> c in ChannelsOf(st, fd);
    }
  }

  lemma {:induction false} AfterAllConcat(st: State, a: seq<Event>, b: seq<Event>)
    ensures AfterAll(st, a + b) == AfterAll(AfterAll(st, a), b)
    ensures AllPossible(st, a + b) <==> AllPossible(st, a) && AllPossible(AfterAll(st, a), b)
    decreases |a|
  {
    hide After, Possible;
    if a == [] {
      assert a + b == b;
    } else {
      assert (a + b)[1..] == a[1..] + b;
      AfterAllConcat(After(st, a[0]), a[1..], b);
    }
  }

  // ---------- the registry object ----------

  class Registry {
    var channelsSubscribers: map<string, set<Descriptor>>
    var clientsMap: map<Descriptor, Client>

    function Abs(): State
      reads this
    {
      State(channelsSubscribers, clientsMap)
    }

    constructor ()
      ensures Abs() == NOBODY
    {
      channelsSubscribers, clientsMap := map[], map[];
    }

    /** The lookup that handle_command makes first for every command. */
    method IsSubscriber(fd: Descriptor) returns (r: bool)
      modifies this
      ensures Abs() == Touched(old(Abs()), fd) && r == Abs().clients[fd].isSubscriber
    {
      if fd !in clientsMap {
        clientsMap := clientsMap[fd := NEW_CLIENT];
      }
      r := clientsMap[fd].isSubscriber;
    }

    method Connect(fd: Descriptor)
      modifies this
      ensures Abs() == Accepted(old(Abs()), fd)
    {
      clientsMap := clientsMap[fd := NEW_CLIENT];
    }

    /** The client's channels are cleaned out of the other index, then the client
        entry itself goes. */
    method Disconnect(fd: Descriptor)
      modifies this
      ensures Abs() == Departed(old(Abs()), fd)
    {
      if fd in clientsMap {
        var channels := Sorted(clientsMap[fd].channels);
        for i := 0 to |channels|
          invariant clientsMap == old(clientsMap)
          invariant Forget(Abs(), fd, channels[i..]) == Forget(old(Abs()), fd, channels)
        {
          assert channels[i..][1..] == channels[i + 1..];
          var c := channels[i];
          var members := if c in channelsSubscribers then channelsSubscribers[c] else {};
          channelsSubscribers := channelsSubscribers[c := members - {fd}];
        }
      }
      clientsMap := clientsMap - {fd};
    }

    /** Stops at the first channel over the limit. */
    method Subscribe(fd: Descriptor, args: seq<string>)
      requires |args| >= 1 && fd in clientsMap
      modifies this
      ensures Abs() == WithSubscriptions(old(Abs()), fd, args[1..])
    {
      for i := 1 to |args|
        invariant fd in clientsMap
        invariant WithSubscriptions(Abs(), fd, args[i..]) == WithSubscriptions(old(Abs()), fd, args[1..])
      {
        assert args[i..][1..] == args[i + 1..];
        var channel := args[i];
        var mine := clientsMap[fd].channels;
        if channel !in mine && |mine| >= MAX_SUBSCRIPTIONS_PER_CLIENT {
          return;
        }
        var members := if channel in channelsSubscribers then channelsSubscribers[channel] else {};
        channelsSubscribers := channelsSubscribers[channel := members + {fd}];
        clientsMap := clientsMap[fd := Client(true, mine + {channel})];
      }
    }

    method Unsubscribe(fd: Descriptor, args: seq<string>)
      requires |args| >= 1 && fd in clientsMap
      modifies this
      ensures Abs() == WithoutSubscriptions(old(Abs()), fd, Named(old(Abs()), fd, args[1..]))
    {
      var toRemove := if |args| == 1 then Sorted(clientsMap[fd].channels) else args[1..];
      for i := 0 to |toRemove|
        invariant fd in clientsMap
        invariant WithoutSubscriptions(Abs(), fd, toRemove[i..]) == WithoutSubscriptions(old(Abs()), fd, toRemove)
      {
        assert toRemove[i..][1..] == toRemove[i + 1..];
        var channel := toRemove[i];
        var members := if channel in channelsSubscribers then channelsSubscribers[channel] else {};
        channelsSubscribers := channelsSubscribers[channel := members - {fd}];
        var left := clientsMap[fd].channels - {channel};
        var flag := clientsMap[fd].isSubscriber;
        if left == {} {
          flag := false;
        }
        clientsMap := clientsMap[fd := Client(flag, left)];
      }
    }

    /** Sends to every subscriber that is a client, once each; the others are
        collected and forgotten afterwards. */
    method Publish(channel: string) returns (sent: seq<Descriptor>, affected: nat)
      modifies this
      ensures Abs() == WithoutGhosts(old(Abs()), channel)
      ensures forall fd :: fd in sent <==> fd in Targets(old(Abs()), channel)
      ensures forall i, j :: 0 <= i < j < |sent| ==> sent[i] != sent[j]
      ensures |sent| == affected == |Targets(old(Abs()), channel)|
    {
      if channel !in channelsSubscribers {
        return [], 0;
      }
      var subscribers := channelsSubscribers[channel];
      var dead;
      sent, dead := Reach(subscribers, clientsMap);
      affected := |sent|;
      OnceEach(sent, Targets(Abs(), channel));
      channelsSubscribers := channelsSubscribers[channel := subscribers - dead];
      assert subscribers - dead == Targets(old(Abs()), channel);
    }
  }

  /** The elements of a set, one after another. */
  method Enumerate(s: set<Descriptor>) returns (order: seq<Descriptor>)
    ensures forall x :: x in order <==> x in s
    ensures forall i, j :: 0 <= i < j < |order| ==> order[i] != order[j]
  {
    order := [];
    var rest := s;
    while rest != {}
      invariant rest <= s
      invariant forall x :: x in order <==> x in s && x !in rest
      invariant forall i, j :: 0 <= i < j < |order| ==> order[i] != order[j]
      decreases |rest|
    {
      var x :| x in rest;
      rest := rest - {x};
      order := order + [x];
    }
  }

  /** The sending loop: every subscriber once, the known ones sent to, the others
      collected. */
  method Reach(subscribers: set<Descriptor>, clients: map<Descriptor, Client>) returns (sent: seq<Descriptor>, dead: set<Descriptor>)
    ensures dead == subscribers - clients.Keys
    ensures forall fd :: fd in sent <==> fd in subscribers * clients.Keys
    ensures forall i, j :: 0 <= i < j < |sent| ==> sent[i] != sent[j]
  {
    sent, dead := [], {};
    var order := Enumerate(subscribers);
    for n := 0 to |order|
      invariant forall fd :: fd in dead <==> fd in order[..n] && fd !in clients
      invariant forall fd :: fd in sent <==> fd in order[..n] && fd in clients
      invariant forall i, j :: 0 <= i < j < |sent| ==> sent[i] != sent[j]
    {
      var fd := order[n];
      assert fd !in order[..n];
      assert forall x :: x in order[..n + 1] <==> x in order[..n] || x == fd;
      if fd !in clients {
        dead := dead + {fd};
      } else {
        sent := sent + [fd];
      }
    }
    assert order[..|order|] == order;
  }

  /** A sequence without repetition is as long as the set of its elements. */
  lemma {:induction false} OnceEach(s: seq<Descriptor>, members: set<Descriptor>)
    requires forall i, j :: 0 <= i < j < |s| ==> s[i] != s[j]
    requires forall x :: x in s <==> x in members
    ensures |s| == |members|
    decreases |s|
  {
    if s == [] {
      assert members == {};
    } else {
      assert s[0] in members && s[0] !in s[1..];
      OnceEach(s[1..], members - {s[0]});
    }
  }
}

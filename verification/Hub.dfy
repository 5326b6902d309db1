/** The fan-out protocol of realtime/sse.go: handlers register, receive and clean up while
    publishers, one at a time under the hub's mutex, offer an event to each client of a topic. A
    publisher races with the receivers on the clients' one-slot channels. */
module Hub {
  import opened Wrappers
  import opened Sets
  import opened EventStream

  /** The identity of a channel, and so of the handler that made it. */
  type Client = nat

  /** A Go channel of capacity one: what it buffers and how often it was closed. */
  datatype Channel = Channel(buffer: seq<Event>, closes: nat)

  /** A handler that registered: in its loop, out of it and due to clean up, or gone. */
  datatype Stage = Serving | Leaving | Finished

  datatype Handler = Handler(topic: string, stage: Stage)

  /** The hub's mutex, and what a publisher that holds it still has to do. */
  datatype Lock = Unlocked | Publishing(topic: string, event: Event, pending: set<Client>)

  datatype State = State(
    maxClients: nat,
    clients: map<string, set<Client>>,
    channels: map<Client, Channel>,
    handlers: map<Client, Handler>,
    lock: Lock,
    panicked: bool)

  function NewHub(maxClients: nat): State {
    State(maxClients, map[], map[], map[], Unlocked, false)
  }

  /** One atomic step. Lock-held sections without channel operations are one step; a publisher's
      offers to its clients are one step each, in any order. */
  datatype Action =
    | Register(client: Client, topic: string)
    | Refuse(topic: string)
    | Begin(topic: string, event: Event)
    | Offer(client: Client)
    | Evict(client: Client)
    | End
    | Receive(client: Client, event: Event)
    | SeeClosed(client: Client)
    | Leave(client: Client)
    | Cleanup(client: Client)

  // ---- the registry ----

  function Registrations(clients: map<string, set<Client>>): set<(string, Client)> {
    set t, c | t in clients && c in clients[t] :: (t, c)
  }

  /** clientCount. */
  function ClientCount(s: State): nat {
    |Registrations(s.clients)|
  }

  function TopicClients(s: State, topic: string): set<Client> {
    if topic in s.clients then s.clients[topic] else {}
  }

  predicate IsRegistered(s: State, c: Client) {
    c in s.handlers && c in TopicClients(s, s.handlers[c].topic)
  }

  // ---- the steps ----

  predicate Stands(s: State, c: Client, stage: Stage) {
    c in s.handlers && c in s.channels && s.handlers[c].stage == stage
  }

  predicate Enabled(s: State, a: Action) {
    && !s.panicked
    && match a
       case Register(c, _) => s.lock.Unlocked? && c !in s.handlers && c !in s.channels && ClientCount(s) < s.maxClients
       case Refuse(_) => s.lock.Unlocked? && ClientCount(s) >= s.maxClients
       case Begin(_, _) => s.lock.Unlocked?
       case Offer(c) =>
         s.lock.Publishing? && c in s.lock.pending && c in s.channels
         && (s.channels[c].buffer == [] || s.channels[c].closes > 0)
       case Evict(c) =>
         s.lock.Publishing? && c in s.lock.pending && c in s.channels
         && s.channels[c].buffer != [] && s.channels[c].closes == 0
       case End => s.lock.Publishing? && s.lock.pending == {}
       case Receive(c, e) => Stands(s, c, Serving) && s.channels[c].buffer != [] && s.channels[c].buffer[0] == e
       case SeeClosed(c) => Stands(s, c, Serving) && s.channels[c].buffer == [] && s.channels[c].closes > 0
       case Leave(c) => Stands(s, c, Serving)
       case Cleanup(c) => s.lock.Unlocked? && Stands(s, c, Leaving)
  }

  /** close(client): the channel after it; closing a closed channel panics. */
  function Closed(channel: Channel): Channel {
    channel.(closes := channel.closes + 1)
  }

  function Staged(s: State, c: Client, stage: Stage): State
    requires c in s.handlers
  {
    s.(handlers := s.handlers[c := s.handlers[c].(stage := stage)])
  }

  function Next(s: State, a: Action): State
    requires Enabled(s, a)
  {
    match a
    case Register(c, t) =>
      s.(clients := s.clients[t := TopicClients(s, t) + {c}],
         channels := s.channels[c := Channel([], 0)],
         handlers := s.handlers[c := Handler(t, Serving)])
    case Refuse(_) => s
    case Begin(t, e) => s.(lock := Publishing(t, e, TopicClients(s, t)))
    case Offer(c) =>
      s.(lock := s.lock.(pending := s.lock.pending - {c}),
         channels := s.channels[c := s.channels[c].(buffer := s.channels[c].buffer + [s.lock.event])],
         panicked := s.channels[c].closes > 0)
    case Evict(c) =>
      var t := s.lock.topic;
      s.(lock := s.lock.(pending := s.lock.pending - {c}),
         channels := s.channels[c := Closed(s.channels[c])],
         clients := if t in s.clients then s.clients[t := s.clients[t] - {c}] else s.clients,
         panicked := s.channels[c].closes > 0)
    case End => s.(lock := Unlocked)
    case Receive(c, _) => s.(channels := s.channels[c := s.channels[c].(buffer := s.channels[c].buffer[1..])])
    case SeeClosed(c) => Staged(s, c, Leaving)
    case Leave(c) => Staged(s, c, Leaving)
    case Cleanup(c) =>
      var t := s.handlers[c].topic;
      var others := TopicClients(s, t) - {c};
      var closing := IsRegistered(s, c);
      Staged(s, c, Finished).(
        clients := if others == {} then s.clients - {t} else s.clients[t := others],
        channels := if closing then s.channels[c := Closed(s.channels[c])] else s.channels,
        panicked := closing && s.channels[c].closes > 0)
  }

  /** The state after a trace from a new hub; None when a step of it is not enabled. */
  function Replay(maxClients: nat, trace: seq<Action>): Option<State> {
    if trace == [] then Some(NewHub(maxClients))
    else
      var last := |trace| - 1;
      match Replay(maxClients, trace[..last])
      case None => None
      case Some(s) => if Enabled(s, trace[last]) then Some(Next(s, trace[last])) else None
  }

  // ---- what every run keeps ----

  ghost predicate Known(s: State) {
    && s.channels.Keys == s.handlers.Keys
    && forall t, c {:trigger c in s.clients[t]} :: t in s.clients && c in s.clients[t] ==>
         c in s.handlers && s.handlers[c].topic == t && s.handlers[c].stage != Finished
  }

  /** A channel is open exactly while it is registered, and was closed at most once. */
  ghost predicate Lifecycle(s: State) {
    forall c {:trigger s.channels[c]} :: c in s.channels ==>
      && |s.channels[c].buffer| <= 1
      && s.channels[c].closes == (if IsRegistered(s, c) then 0 else 1)
  }

  /** A topic without clients stays in the map only while a handler of it is still to clean up. */
  ghost predicate NoLeak(s: State) {
    forall t :: t in s.clients ==> s.clients[t] != {} || Awaited(s, t)
  }

  ghost predicate Awaited(s: State, topic: string) {
    exists c :: c in s.handlers && s.handlers[c].topic == topic && s.handlers[c].stage != Finished
  }

  ghost predicate PendingRegistered(s: State) {
    s.lock.Publishing? ==> s.lock.pending <= TopicClients(s, s.lock.topic)
  }

  ghost predicate Inv(s: State) {
    && !s.panicked
    && Known(s)
    && Lifecycle(s)
    && NoLeak(s)
    && PendingRegistered(s)
    && ClientCount(s) <= s.maxClients
  }

  lemma IsRegistration(m: map<string, set<Client>>, p: (string, Client))
    ensures p in Registrations(m) <==> p.0 in m && p.1 in m[p.0]
  {
  }

  lemma RegistrationsAdd(m: map<string, set<Client>>, t: string, c: Client, m': map<string, set<Client>>)
    requires t in m ==> c !in m[t]
    requires m' == m[t := (if t in m then m[t] else {}) + {c}]
    ensures |Registrations(m')| == |Registrations(m)| + 1
  {
    hide Registrations;
    var before, after := Registrations(m), Registrations(m');
    forall p
      ensures p in after <==> p == (t, c) || p in before
    {
      IsRegistration(m, p);
      IsRegistration(m', p);
    }
    IsRegistration(m, (t, c));
    assert after == before + {(t, c)};
  }

  lemma RegisterKnown(s: State, c: Client, t: string)
    requires Inv(s) && Enabled(s, Register(c, t))
    ensures var s' := Next(s, Register(c, t));
            Known(s') && PendingRegistered(s') && !s'.panicked
  {
    hide NoLeak, Lifecycle, Registrations;
  }

  lemma RegisterCount(s: State, c: Client, t: string)
    requires Inv(s) && Enabled(s, Register(c, t))
    ensures ClientCount(Next(s, Register(c, t))) <= s.maxClients
  {
    hide NoLeak, Lifecycle, Registrations;
    RegistrationsAdd(s.clients, t, c, Next(s, Register(c, t)).clients);
  }

  lemma RegisterChannels(s: State, c: Client, t: string)
    requires Inv(s) && Enabled(s, Register(c, t))
    ensures Lifecycle(Next(s, Register(c, t))) && NoLeak(Next(s, Register(c, t)))
  {
    hide Registrations;
    var s' := Next(s, Register(c, t));
    forall u | u in s'.clients && s'.clients[u] == {}
      ensures Awaited(s', u)
    {
      var d :| d in s.handlers && s.handlers[d].topic == u && s.handlers[d].stage != Finished;
      assert s'.handlers[d] == s.handlers[d];
    }
  }

  lemma RegisterKeeps(s: State, c: Client, t: string)
    requires Inv(s) && Enabled(s, Register(c, t))
    ensures Inv(Next(s, Register(c, t)))
  {
    hide NoLeak, Known, Lifecycle, Registrations;
    RegisterKnown(s, c, t);
    RegisterCount(s, c, t);
    RegisterChannels(s, c, t);
  }

  /** The steps that leave the registry alone. */
  predicate KeepsRegistry(a: Action) {
    !a.Register? && !a.Evict? && !a.Cleanup?
  }

  lemma SameRegistry(s: State, a: Action)
    requires Enabled(s, a) && KeepsRegistry(a)
    ensures Next(s, a).clients == s.clients && Next(s, a).maxClients == s.maxClients
    ensures Next(s, a).handlers.Keys == s.handlers.Keys
    ensures forall c :: c in s.handlers ==>
              && Next(s, a).handlers[c].topic == s.handlers[c].topic
              && (Next(s, a).handlers[c].stage == Finished <==> s.handlers[c].stage == Finished)
  {
    hide Registrations;
  }

  lemma SameRegistryKnown(s: State, a: Action)
    requires Inv(s) && Enabled(s, a) && KeepsRegistry(a)
    ensures Known(Next(s, a)) && NoLeak(Next(s, a)) && ClientCount(Next(s, a)) <= s.maxClients
  {
    hide Next, Enabled, Lifecycle, Registrations;
    SameRegistry(s, a);
    SameChannels(s, a);
    var s' := Next(s, a);
    forall u | u in s'.clients && s'.clients[u] == {}
      ensures Awaited(s', u)
    {
      var d :| d in s.handlers && s.handlers[d].topic == u && s.handlers[d].stage != Finished;
      assert d in s'.handlers;
    }
  }

  lemma SameChannels(s: State, a: Action)
    requires Enabled(s, a) && KeepsRegistry(a) && s.channels.Keys == s.handlers.Keys
    ensures Next(s, a).channels.Keys == s.channels.Keys
  {
    hide Registrations;
  }

  lemma SameRegistryLifecycle(s: State, a: Action)
    requires Inv(s) && Enabled(s, a) && KeepsRegistry(a)
    ensures Lifecycle(Next(s, a)) && PendingRegistered(Next(s, a)) && !Next(s, a).panicked
  {
    hide NoLeak, Registrations;
  }

  lemma RegistryKept(s: State, a: Action)
    requires Inv(s) && Enabled(s, a) && KeepsRegistry(a)
    ensures Inv(Next(s, a))
  {
    hide NoLeak, Known, Lifecycle, Registrations, Next, Enabled;
    SameRegistry(s, a);
    SameRegistryKnown(s, a);
    SameRegistryLifecycle(s, a);
  }

  lemma EvictKnown(s: State, c: Client)
    requires Inv(s) && Enabled(s, Evict(c))
    ensures var s' := Next(s, Evict(c));
            Known(s') && PendingRegistered(s') && !s'.panicked
  {
    hide NoLeak, Registrations;
  }

  lemma EvictCount(s: State, c: Client)
    requires Inv(s) && Enabled(s, Evict(c))
    ensures ClientCount(Next(s, Evict(c))) <= s.maxClients
  {
    hide NoLeak, Lifecycle, Known;
    SubsetSize(Registrations(Next(s, Evict(c)).clients), Registrations(s.clients));
  }

  lemma EvictLifecycle(s: State, c: Client)
    requires Inv(s) && Enabled(s, Evict(c))
    ensures Lifecycle(Next(s, Evict(c)))
  {
    hide NoLeak, Registrations;
  }

  /** The topic of an evicted client keeps its key: the client's handler is still to clean up. */
  lemma EvictNoLeak(s: State, c: Client)
    requires Inv(s) && Enabled(s, Evict(c))
    ensures NoLeak(Next(s, Evict(c)))
  {
    hide Registrations, Lifecycle;
    var s' := Next(s, Evict(c));
    forall u | u in s'.clients && s'.clients[u] == {}
      ensures Awaited(s', u)
    {
      if u == s.lock.topic {
        assert c in s.clients[u];
      } else {
        assert s'.clients[u] == s.clients[u];
      }
    }
  }

  lemma EvictKeeps(s: State, c: Client)
    requires Inv(s) && Enabled(s, Evict(c))
    ensures Inv(Next(s, Evict(c)))
  {
    hide NoLeak, Known, Lifecycle, Registrations;
    EvictKnown(s, c);
    EvictCount(s, c);
    EvictLifecycle(s, c);
    EvictNoLeak(s, c);
  }

  lemma CleanupKnown(s: State, c: Client)
    requires Inv(s) && Enabled(s, Cleanup(c))
    ensures var s' := Next(s, Cleanup(c));
            Known(s') && PendingRegistered(s') && !s'.panicked
  {
    hide NoLeak, Registrations;
  }

  lemma CleanupCount(s: State, c: Client)
    requires Inv(s) && Enabled(s, Cleanup(c))
    ensures ClientCount(Next(s, Cleanup(c))) <= s.maxClients
  {
    hide NoLeak, Lifecycle, Known;
    SubsetSize(Registrations(Next(s, Cleanup(c)).clients), Registrations(s.clients));
  }

  lemma CleanupLifecycle(s: State, c: Client)
    requires Inv(s) && Enabled(s, Cleanup(c))
    ensures Lifecycle(Next(s, Cleanup(c)))
  {
    hide NoLeak, Registrations;
  }

  lemma CleanupNoLeak(s: State, c: Client)
    requires Inv(s) && Enabled(s, Cleanup(c))
    ensures NoLeak(Next(s, Cleanup(c)))
  {
    hide Registrations, Lifecycle;
    var s' := Next(s, Cleanup(c));
    forall u | u in s'.clients && s'.clients[u] == {}
      ensures Awaited(s', u)
    {
      var d :| d in s.handlers && s.handlers[d].topic == u && s.handlers[d].stage != Finished;
      assert s'.handlers[d] == s.handlers[d];
    }
  }

  /** Every step keeps the invariant. */
  lemma StepKeeps(s: State, a: Action)
    requires Inv(s) && Enabled(s, a)
    ensures Inv(Next(s, a))
  {
    hide Inv, Enabled, Next;
    match a
    case Register(c, t) => RegisterKeeps(s, c, t);
    case Evict(c) => EvictKeeps(s, c);
    case Cleanup(c) => CleanupKeeps(s, c);
    case _ => RegistryKept(s, a);
  }

  lemma CleanupKeeps(s: State, c: Client)
    requires Inv(s) && Enabled(s, Cleanup(c))
    ensures Inv(Next(s, Cleanup(c)))
  {
    hide NoLeak, Known, Lifecycle, Registrations;
    CleanupKnown(s, c);
    CleanupCount(s, c);
    CleanupLifecycle(s, c);
    CleanupNoLeak(s, c);
  }

  /** The invariant holds after every trace. */
  lemma {:induction false} Reachable(maxClients: nat, trace: seq<Action>)
    ensures Replay(maxClients, trace).Some? ==>
              Inv(Replay(maxClients, trace).value) && Replay(maxClients, trace).value.maxClients == maxClients
  {
    hide Next, Enabled, Inv;
    if trace == [] {
      NewHubKeeps(maxClients);
    } else {
      var last := |trace| - 1;
      Reachable(maxClients, trace[..last]);
      if Replay(maxClients, trace).Some? {
        StepKeeps(Replay(maxClients, trace[..last]).value, trace[last]);
        SameLimit(Replay(maxClients, trace[..last]).value, trace[last]);
      }
    }
  }

  lemma NewHubKeeps(maxClients: nat)
    ensures Inv(NewHub(maxClients))
  {
  }

  lemma SameLimit(s: State, a: Action)
    requires Enabled(s, a)
    ensures Next(s, a).maxClients == s.maxClients
  {
  }

  // ---- lifecycle, capacity and leaks over every run ----

  /** The channels of the registered clients. */
  function Registered(s: State): set<Client> {
    set c | c in s.handlers && IsRegistered(s, c)
  }

  lemma {:induction false} ProjectionSize(pairs: set<(string, Client)>, cs: set<Client>)
    requires forall c :: c in cs ==> exists p :: p in pairs && p.1 == c
    ensures |cs| <= |pairs|
    decreases |cs|
  {
    if cs != {} {
      var c :| c in cs;
      var p :| p in pairs && p.1 == c;
      forall d | d in cs - {c}
        ensures exists q :: q in pairs - {p} && q.1 == d
      {
        var q :| q in pairs && q.1 == d;
        assert q in pairs - {p};
      }
      ProjectionSize(pairs - {p}, cs - {c});
    }
  }

  /** In every reachable state a channel is open iff it is registered and is closed at most once;
      nothing was sent to or closed after a close; and the open streams are within the limit. */
  lemma OpenIffRegistered(maxClients: nat, trace: seq<Action>)
    requires Replay(maxClients, trace).Some?
    ensures var s := Replay(maxClients, trace).value;
            && !s.panicked
            && (forall c :: c in s.channels ==> |s.channels[c].buffer| <= 1 && s.channels[c].closes <= 1)
            && (forall c :: c in s.channels ==> (s.channels[c].closes == 0 <==> c in Registered(s)))
            && |Registered(s)| <= maxClients
  {
    Reachable(maxClients, trace);
    var s := Replay(maxClients, trace).value;
    forall c | c in Registered(s)
      ensures exists p :: p in Registrations(s.clients) && p.1 == c
    {
      assert (s.handlers[c].topic, c) in Registrations(s.clients);
    }
    ProjectionSize(Registrations(s.clients), Registered(s));
  }

  lemma TopicAwaited(s: State, t: string)
    requires Known(s) && NoLeak(s) && t in s.clients
    ensures Awaited(s, t)
  {
    if s.clients[t] != {} {
      var c :| c in s.clients[t];
    }
  }

  /** Each topic key has a handler that still has to clean up, so once every handler has finished
      the map is empty. */
  lemma NothingLeaks(maxClients: nat, trace: seq<Action>)
    requires Replay(maxClients, trace).Some?
    ensures var s := Replay(maxClients, trace).value;
            && (forall t :: t in s.clients ==> Awaited(s, t))
            && ((forall c :: c in s.handlers ==> s.handlers[c].stage == Finished) ==> s.clients == map[])
  {
    Reachable(maxClients, trace);
    var s := Replay(maxClients, trace).value;
    forall t | t in s.clients
      ensures Awaited(s, t)
    {
      TopicAwaited(s, t);
    }
  }

  // ---- delivery ----

  /** The events published to a topic, in the order in which publishers got the mutex. */
  function Published(trace: seq<Action>, topic: string): seq<Event> {
    if trace == [] then []
    else
      var last := trace[|trace| - 1];
      Published(trace[..|trace| - 1], topic)
      + if last.Begin? && last.topic == topic then [last.event] else []
  }

  /** The events a client's handler took from its channel. */
  function Received(trace: seq<Action>, c: Client): seq<Event> {
    if trace == [] then []
    else
      var last := trace[|trace| - 1];
      Received(trace[..|trace| - 1], c) + if last.Receive? && last.client == c then [last.event] else []
  }

  /** The event that the publisher holding the mutex has not yet offered to c. */
  function InFlight(s: State, c: Client): seq<Event> {
    if s.lock.Publishing? && c in s.lock.pending then [s.lock.event] else []
  }

  /** What a client got so far: received, then buffered. */
  function Got(trace: seq<Action>, s: State, c: Client): seq<Event>
    requires c in s.channels
  {
    Received(trace, c) + s.channels[c].buffer
  }

  /** c's part of a trace: it registered for `topic` at i and left the registry at j, by eviction
      or by its own cleanup, or is still in it at the end. */
  ghost predicate Stay(trace: seq<Action>, c: Client, topic: string, i: nat, j: nat) {
    && i < j <= |trace|
    && trace[i] == Register(c, topic)
    && (forall k :: i < k < j ==> trace[k] != Evict(c) && trace[k] != Cleanup(c))
    && (j < |trace| ==> trace[j] == Evict(c) || trace[j] == Cleanup(c))
  }

  /** What delivery means for one stay: a client got exactly the events published to its topic
      from its registration on, in order, each once: all of them but the one still in flight while
      it is registered, all of them if it left by itself, and all before the one that found its
      slot full if it was evicted. */
  ghost predicate Delivered(trace: seq<Action>, s: State, c: Client, topic: string, i: nat, j: nat)
    requires i <= j <= |trace|
  {
    && c in s.channels
    && var window := Published(trace[i..j], topic);
       if j == |trace| then Got(trace, s, c) + InFlight(s, c) == window
       else if trace[j] == Cleanup(c) then Got(trace, s, c) == window
       else window != [] && Got(trace, s, c) == window[..|window| - 1]
  }

  /** Where c stands in the registry after a stay. */
  ghost predicate Placed(trace: seq<Action>, s: State, c: Client, topic: string, j: nat) {
    && c in s.handlers && s.handlers[c].topic == topic
    && (IsRegistered(s, c) <==> j == |trace|)
  }

  lemma PublishedMore(trace: seq<Action>, i: nat, topic: string)
    requires i < |trace|
    ensures var last := trace[|trace| - 1];
            Published(trace[i..], topic)
            == Published(trace[..|trace| - 1][i..], topic)
               + if last.Begin? && last.topic == topic then [last.event] else []
  {
    assert trace[i..][..|trace[i..]| - 1] == trace[..|trace| - 1][i..];
  }

  lemma StaysRegistered(s: State, a: Action, c: Client)
    requires Inv(s) && Enabled(s, a) && IsRegistered(s, c) && a != Evict(c) && a != Cleanup(c)
    ensures var s' := Next(s, a);
            && IsRegistered(s', c) && c in s'.handlers && s'.handlers[c].topic == s.handlers[c].topic
            && c in s'.channels
  {
    hide NoLeak, Lifecycle, Registrations;
  }

  lemma SlotFollows(s: State, a: Action, c: Client)
    requires Inv(s) && Enabled(s, a) && IsRegistered(s, c) && a != Evict(c) && a != Cleanup(c)
    ensures var s', topic := Next(s, a), s.handlers[c].topic;
            && c in s'.channels
            && (if a.Receive? && a.client == c then [a.event] else []) + s'.channels[c].buffer + InFlight(s', c)
               == s.channels[c].buffer + InFlight(s, c) + (if a.Begin? && a.topic == topic then [a.event] else [])
  {
    hide NoLeak, Registrations;
    StaysRegistered(s, a, c);
  }

  /** One more step of a client that stays registered. */
  lemma StillRegistered(s: State, a: Action, c: Client, topic: string, got: seq<Event>)
    requires Inv(s) && Enabled(s, a) && IsRegistered(s, c) && s.handlers[c].topic == topic
    requires a != Evict(c) && a != Cleanup(c)
    ensures var s' := Next(s, a);
            && IsRegistered(s', c) && c in s'.handlers && s'.handlers[c].topic == topic && c in s'.channels
            && (got + s.channels[c].buffer + InFlight(s, c))
               + (if a.Begin? && a.topic == topic then [a.event] else [])
               == (got + if a.Receive? && a.client == c then [a.event] else [])
                  + s'.channels[c].buffer + InFlight(s', c)
  {
    hide Next, Enabled, NoLeak, Lifecycle, Registrations, InFlight;
    StaysRegistered(s, a, c);
    SlotFollows(s, a, c);
    var s' := Next(s, a);
    var taken := if a.Receive? && a.client == c then [a.event] else [];
    assert got + taken + s'.channels[c].buffer + InFlight(s', c)
        == got + (taken + s'.channels[c].buffer + InFlight(s', c));
  }

  /** The step with which a registered client leaves. */
  lemma Leaves(s: State, a: Action, c: Client)
    requires Inv(s) && Enabled(s, a) && IsRegistered(s, c) && (a == Evict(c) || a == Cleanup(c))
    ensures var s' := Next(s, a);
            && c in s'.handlers && s'.handlers[c].topic == s.handlers[c].topic && !IsRegistered(s', c)
            && c in s'.channels && s'.channels[c].buffer == s.channels[c].buffer
            && InFlight(s, c) == (if a == Evict(c) then [s.lock.event] else [])
  {
    hide NoLeak, Registrations;
  }

  /** Later steps of a client that left: it may still receive what is buffered. */
  lemma StillGone(s: State, a: Action, c: Client, got: seq<Event>)
    requires Inv(s) && Enabled(s, a) && c in s.handlers && c in s.channels && !IsRegistered(s, c)
    ensures var s' := Next(s, a);
            && c in s'.handlers && s'.handlers[c].topic == s.handlers[c].topic && !IsRegistered(s', c)
            && c in s'.channels
            && got + s.channels[c].buffer
               == (got + if a.Receive? && a.client == c then [a.event] else []) + s'.channels[c].buffer
  {
    hide NoLeak, Registrations;
  }

  lemma Joins(s: State, c: Client, topic: string)
    requires Inv(s) && Enabled(s, Register(c, topic))
    ensures var s' := Next(s, Register(c, topic));
            && IsRegistered(s', c) && s'.handlers[c].topic == topic
            && c in s'.channels && s'.channels[c].buffer == [] && InFlight(s', c) == []
  {
    hide NoLeak, Registrations;
  }

  lemma {:induction false} NothingBefore(maxClients: nat, trace: seq<Action>, c: Client)
    requires Replay(maxClients, trace).Some? && c !in Replay(maxClients, trace).value.handlers
    ensures Received(trace, c) == []
  {
    if trace != [] {
      var last := |trace| - 1;
      var s := Replay(maxClients, trace[..last]).value;
      HandlersStay(s, trace[last], c);
      NothingBefore(maxClients, trace[..last], c);
    }
  }

  lemma HandlersStay(s: State, a: Action, c: Client)
    requires Enabled(s, a) && c !in Next(s, a).handlers
    ensures c !in s.handlers && !(a.Receive? && a.client == c)
  {
  }

  lemma ReplayLast(maxClients: nat, trace: seq<Action>)
    requires trace != [] && Replay(maxClients, trace).Some?
    ensures var last := |trace| - 1;
            && Replay(maxClients, trace[..last]).Some?
            && Enabled(Replay(maxClients, trace[..last]).value, trace[last])
            && Replay(maxClients, trace).value == Next(Replay(maxClients, trace[..last]).value, trace[last])
            && Inv(Replay(maxClients, trace[..last]).value)
  {
    hide Next, Enabled, Inv;
    Reachable(maxClients, trace[..|trace| - 1]);
  }

  lemma StayDelivers(trace: seq<Action>, s: State, c: Client, topic: string, i: nat)
    requires trace != [] && Inv(s) && Enabled(s, trace[|trace| - 1])
    requires Stay(trace, c, topic, i, |trace|) && i < |trace| - 1
    requires Delivered(trace[..|trace| - 1], s, c, topic, i, |trace| - 1)
    requires Placed(trace[..|trace| - 1], s, c, topic, |trace| - 1)
    ensures Delivered(trace, Next(s, trace[|trace| - 1]), c, topic, i, |trace|)
    ensures Placed(trace, Next(s, trace[|trace| - 1]), c, topic, |trace|)
  {
    hide Next, Enabled, Inv, IsRegistered, InFlight;
    var last := |trace| - 1;
    var earlier, a := trace[..last], trace[last];
    StillRegistered(s, a, c, topic, Received(earlier, c));
    PublishedMore(trace, i, topic);
    assert earlier[i..last] == earlier[i..] && trace[i..|trace|] == trace[i..];
    assert Received(trace, c) == Received(earlier, c) + if a.Receive? && a.client == c then [a.event] else [];
  }

  lemma SliceOfPrefix(trace: seq<Action>, i: nat, j: nat, n: nat)
    requires i <= j <= n <= |trace|
    ensures trace[..n][i..j] == trace[i..j]
  {
  }

  lemma LeaveDelivers(trace: seq<Action>, s: State, c: Client, topic: string, i: nat)
    requires trace != [] && Inv(s) && Enabled(s, trace[|trace| - 1])
    requires Stay(trace, c, topic, i, |trace| - 1)
    requires Delivered(trace[..|trace| - 1], s, c, topic, i, |trace| - 1)
    requires Placed(trace[..|trace| - 1], s, c, topic, |trace| - 1)
    ensures Delivered(trace, Next(s, trace[|trace| - 1]), c, topic, i, |trace| - 1)
    ensures Placed(trace, Next(s, trace[|trace| - 1]), c, topic, |trace| - 1)
  {
    hide Next, Enabled, Inv, IsRegistered, InFlight;
    var last := |trace| - 1;
    Leaves(s, trace[last], c);
    SliceOfPrefix(trace, i, last, last);
  }

  lemma GoneDelivers(trace: seq<Action>, s: State, c: Client, topic: string, i: nat, j: nat)
    requires trace != [] && Inv(s) && Enabled(s, trace[|trace| - 1])
    requires j < |trace| - 1 && Stay(trace, c, topic, i, j)
    requires Delivered(trace[..|trace| - 1], s, c, topic, i, j)
    requires Placed(trace[..|trace| - 1], s, c, topic, j)
    ensures Delivered(trace, Next(s, trace[|trace| - 1]), c, topic, i, j)
    ensures Placed(trace, Next(s, trace[|trace| - 1]), c, topic, j)
  {
    hide Next, Enabled, Inv, IsRegistered, InFlight, Published;
    var last := |trace| - 1;
    StillGone(s, trace[last], c, Received(trace[..last], c));
    SliceOfPrefix(trace, i, j, last);
  }

  lemma StayedBefore(trace: seq<Action>, c: Client, topic: string, i: nat, j: nat)
    requires Stay(trace, c, topic, i, j) && i < |trace| - 1
    ensures Stay(trace[..|trace| - 1], c, topic, i, if j == |trace| then j - 1 else j)
  {
  }

  /** Gap-free delivery, for every run, every client and every stay of it in the registry. */
  lemma {:induction false} GapFree(maxClients: nat, trace: seq<Action>, c: Client, topic: string, i: nat, j: nat)
    requires Replay(maxClients, trace).Some? && Stay(trace, c, topic, i, j)
    ensures Delivered(trace, Replay(maxClients, trace).value, c, topic, i, j)
    ensures Placed(trace, Replay(maxClients, trace).value, c, topic, j)
    decreases |trace|
  {
    hide Next, Enabled, Inv, Replay, Delivered, Placed;
    var last := |trace| - 1;
    ReplayLast(maxClients, trace);
    var earlier := trace[..last];
    var s := Replay(maxClients, earlier).value;
    if i == last {
      JoinDelivers(maxClients, trace, c, topic);
    } else {
      StayedBefore(trace, c, topic, i, j);
      if j == |trace| {
        GapFree(maxClients, earlier, c, topic, i, last);
        StayDelivers(trace, s, c, topic, i);
      } else if j == last {
        GapFree(maxClients, earlier, c, topic, i, last);
        LeaveDelivers(trace, s, c, topic, i);
      } else {
        GapFree(maxClients, earlier, c, topic, i, j);
        GoneDelivers(trace, s, c, topic, i, j);
      }
    }
  }

  lemma JoinDelivers(maxClients: nat, trace: seq<Action>, c: Client, topic: string)
    requires trace != [] && Replay(maxClients, trace).Some? && trace[|trace| - 1] == Register(c, topic)
    ensures Delivered(trace, Replay(maxClients, trace).value, c, topic, |trace| - 1, |trace|)
    ensures Placed(trace, Replay(maxClients, trace).value, c, topic, |trace|)
  {
    ReplayLast(maxClients, trace);
    var last := |trace| - 1;
    var s := Replay(maxClients, trace[..last]).value;
    assert c !in s.handlers;
    Joins(s, c, topic);
    NothingBefore(maxClients, trace[..last], c);
    assert trace[last..|trace|] == [Register(c, topic)];
    assert Published([Register(c, topic)][..0], topic) == [];
  }

  // ---- every handler gets to its cleanup ----

  /** What a trace says of the stage of a handler. */
  ghost predicate StagedBy(trace: seq<Action>, s: State, c: Client) {
    && (c in s.handlers <==> exists t :: Register(c, t) in trace)
    && (c in s.handlers ==>
          && (s.handlers[c].stage == Finished <==> Cleanup(c) in trace)
          && (s.handlers[c].stage == Leaving <==>
              (Leave(c) in trace || SeeClosed(c) in trace) && Cleanup(c) !in trace))
  }

  lemma StagedStep(trace: seq<Action>, s: State, a: Action, c: Client)
    requires Enabled(s, a) && StagedBy(trace, s, c)
    requires c !in s.handlers ==> Leave(c) !in trace && SeeClosed(c) !in trace && Cleanup(c) !in trace
    ensures StagedBy(trace + [a], Next(s, a), c)
  {
    hide Registrations;
    var more := trace + [a];
    forall b: Action
      ensures b in more <==> b in trace || b == a
    {
    }
    if a.Register? && a.client == c {
      assert Register(c, a.topic) in more;
    }
  }

  lemma {:induction false} Unheard(maxClients: nat, trace: seq<Action>, c: Client)
    requires Replay(maxClients, trace).Some? && c !in Replay(maxClients, trace).value.handlers
    ensures Leave(c) !in trace && SeeClosed(c) !in trace && Cleanup(c) !in trace
  {
    hide Replay;
    if trace != [] {
      ReplayLast(maxClients, trace);
      var last := |trace| - 1;
      var s, a := Replay(maxClients, trace[..last]).value, trace[last];
      HandlersStay(s, a, c);
      Unheard(maxClients, trace[..last], c);
      assert trace == trace[..last] + [a];
    }
  }

  /** The stage of a handler is what the trace says: finished once it has cleaned up, and leaving from
      the step with which it left its loop until then. */
  lemma {:induction false} StagesByTrace(maxClients: nat, trace: seq<Action>, c: Client)
    requires Replay(maxClients, trace).Some?
    ensures StagedBy(trace, Replay(maxClients, trace).value, c)
  {
    hide Next, Enabled, Inv, StagedBy;
    if trace == [] {
      StagedAtStart(maxClients, c);
    } else {
      ReplayLast(maxClients, trace);
      var last := |trace| - 1;
      var s, a := Replay(maxClients, trace[..last]).value, trace[last];
      StagesByTrace(maxClients, trace[..last], c);
      if c !in s.handlers {
        Unheard(maxClients, trace[..last], c);
      }
      StagedStep(trace[..last], s, a, c);
      assert trace == trace[..last] + [a];
    }
  }

  lemma StagedAtStart(maxClients: nat, c: Client)
    ensures StagedBy([], NewHub(maxClients), c)
  {
  }

  ghost function Unfinished(s: State): set<Client> {
    set c | c in s.handlers && s.handlers[c].stage != Finished
  }

  ghost function InLoop(s: State): set<Client> {
    set c | c in s.handlers && s.handlers[c].stage == Stage.Serving
  }

  /** How much is left to do: offers, the publisher's end, handlers in their loop, cleanups. */
  ghost function Work(s: State): nat {
    (if s.lock.Publishing? then 1 + |s.lock.pending| else 0) + |InLoop(s)| + |Unfinished(s)|
  }

  lemma OfferWorks(s: State) returns (a: Action)
    requires Inv(s) && s.lock.Publishing?
    ensures Enabled(s, a) && (a.Offer? || a.Evict? || a.End?) && Work(Next(s, a)) < Work(s)
  {
    hide Registrations, NoLeak;
    if s.lock.pending == {} {
      a := End;
    } else {
      var c :| c in s.lock.pending;
      a := if s.channels[c].buffer == [] then Offer(c) else Evict(c);
    }
    assert InLoop(Next(s, a)) == InLoop(s) && Unfinished(Next(s, a)) == Unfinished(s);
  }

  lemma LeaveWorks(s: State, c: Client)
    requires Inv(s) && c in InLoop(s)
    ensures Enabled(s, Leave(c)) && Work(Next(s, Leave(c))) < Work(s)
  {
    hide Registrations, NoLeak;
    var s' := Next(s, Leave(c));
    assert InLoop(s') == InLoop(s) - {c} && Unfinished(s') == Unfinished(s);
  }

  lemma CleanupWorks(s: State, c: Client)
    requires Inv(s) && s.lock == Unlocked && c in Unfinished(s) && c !in InLoop(s)
    ensures Enabled(s, Cleanup(c)) && Work(Next(s, Cleanup(c))) < Work(s)
  {
    hide Registrations, NoLeak, Lifecycle, PendingRegistered, TopicClients, IsRegistered;
    var s' := Next(s, Cleanup(c));
    assert InLoop(s') == InLoop(s) && Unfinished(s') == Unfinished(s) - {c};
  }

  /** The steps with which the streams of a hub come to their end: no new client, event or message. */
  predicate Closing(a: Action) {
    a.Offer? || a.Evict? || a.End? || a.Leave? || a.Cleanup?
  }

  lemma NextClosing(s: State) returns (a: Action)
    requires Inv(s) && (s.lock.Publishing? || Unfinished(s) != {})
    ensures Enabled(s, a) && Closing(a) && Work(Next(s, a)) < Work(s)
  {
    hide Inv, Enabled, Next, Work;
    if s.lock.Publishing? {
      a := OfferWorks(s);
    } else if InLoop(s) != {} {
      var c :| c in InLoop(s);
      LeaveWorks(s, c);
      a := Leave(c);
    } else {
      var c :| c in Unfinished(s);
      CleanupWorks(s, c);
      a := Cleanup(c);
    }
  }

  /** From every reachable state the hub can come to rest by steps of the publisher that holds the mutex
      and of handlers that leave and clean up: every handler has finished then and no client is left. */
  lemma {:induction false} CanComeToRest(maxClients: nat, trace: seq<Action>) returns (more: seq<Action>)
    requires Replay(maxClients, trace).Some?
    ensures forall i :: 0 <= i < |more| ==> Closing(more[i])
    ensures Replay(maxClients, trace + more).Some?
    ensures var s := Replay(maxClients, trace + more).value;
            && s.handlers.Keys == Replay(maxClients, trace).value.handlers.Keys
            && (forall c :: c in s.handlers ==> s.handlers[c].stage == Finished)
            && s.clients == map[] && s.lock == Unlocked
    decreases Work(Replay(maxClients, trace).value)
  {
    hide Replay, Inv, Enabled, Next, Work;
    Reachable(maxClients, trace);
    var s := Replay(maxClients, trace).value;
    if s.lock.Publishing? || Unfinished(s) != {} {
      var a := NextClosing(s);
      ReplayMore(maxClients, trace, a);
      SameHandlers(s, a);
      var rest := CanComeToRest(maxClients, trace + [a]);
      more := [a] + rest;
      assert trace + more == trace + [a] + rest;
    } else {
      more := [];
      assert trace + more == trace;
      AllFinished(s);
      NothingLeaks(maxClients, trace);
    }
  }

  lemma AllFinished(s: State)
    requires Unfinished(s) == {}
    ensures forall c :: c in s.handlers ==> s.handlers[c].stage == Finished
  {
    assert forall c :: c in s.handlers && s.handlers[c].stage != Finished ==> c in Unfinished(s);
  }

  lemma SameHandlers(s: State, a: Action)
    requires Enabled(s, a) && Closing(a)
    ensures Next(s, a).handlers.Keys == s.handlers.Keys
  {
    hide Registrations;
  }

  /** A handler in its loop is never stuck with a closed channel: it can receive or see the close. */
  lemma CloseIsSeen(maxClients: nat, trace: seq<Action>, c: Client)
    requires Replay(maxClients, trace).Some?
    ensures var s := Replay(maxClients, trace).value;
            Stands(s, c, Stage.Serving) && !IsRegistered(s, c) ==>
              if s.channels[c].buffer == [] then Enabled(s, SeeClosed(c))
              else Enabled(s, Receive(c, s.channels[c].buffer[0]))
  {
    hide Registrations, NoLeak;
    Reachable(maxClients, trace);
  }

  // ---- the hub ----

  const DEFAULT_MAX_CLIENTS := 1000

  /** NewHub with WithMaxClients(limit). */
  function ConfiguredLimit(limit: int): (n: nat)
    ensures n >= 1 && (limit >= 1 ==> n == limit) && (limit < 1 ==> n == 1000)
  {
    if limit > 0 then limit else DEFAULT_MAX_CLIENTS
  }

  /** The pairs of the registry that belong to the given topics. */
  ghost function Under(m: map<string, set<Client>>, topics: set<string>): set<(string, Client)> {
    set t, c | t in m && t in topics && c in m[t] :: (t, c)
  }

  ghost function Tagged(t: string, cs: set<Client>): set<(string, Client)> {
    set c | c in cs :: (t, c)
  }

  lemma {:induction false} TaggedSize(t: string, cs: set<Client>)
    ensures |Tagged(t, cs)| == |cs|
  {
    if cs == {} {
      assert Tagged(t, cs) == {};
    } else {
      var c :| c in cs;
      var rest := cs - {c};
      TaggedSize(t, rest);
      assert Tagged(t, cs) == Tagged(t, rest) + {(t, c)} && (t, c) !in Tagged(t, rest);
    }
  }

  lemma UnderOne(m: map<string, set<Client>>, topics: set<string>, t: string)
    requires t in topics && t in m
    ensures |Under(m, topics)| == |m[t]| + |Under(m, topics - {t})|
  {
    var own, rest := Tagged(t, m[t]), Under(m, topics - {t});
    TaggedSize(t, m[t]);
    assert Under(m, topics) == own + rest;
    assert own * rest == {};
  }

  lemma ReplayMore(maxClients: nat, trace: seq<Action>, a: Action)
    requires Replay(maxClients, trace).Some? && Enabled(Replay(maxClients, trace).value, a)
    ensures Replay(maxClients, trace + [a]) == Some(Next(Replay(maxClients, trace).value, a))
    ensures !Next(Replay(maxClients, trace).value, a).panicked
  {
    hide Next, Enabled;
    assert (trace + [a])[..|trace|] == trace;
    Reachable(maxClients, trace + [a]);
  }

  lemma SameKeys(maxClients: nat, trace: seq<Action>)
    requires Replay(maxClients, trace).Some?
    ensures Replay(maxClients, trace).value.channels.Keys == Replay(maxClients, trace).value.handlers.Keys
  {
    Reachable(maxClients, trace);
  }

  /** The hub with the channels and handlers it serves. `trace` records the steps taken so far, and
      the fields are always the state that those steps lead to, so every theorem about runs holds
      of the object after any sequence of calls. */
  class EventHub {
    const maxClients: nat
    var clients: map<string, set<Client>>
    var channels: map<Client, Channel>
    var handlers: map<Client, Handler>
    var lock: Lock
    var made: nat
    ghost var trace: seq<Action>

    ghost function Snapshot(): State
      reads this
    {
      State(maxClients, clients, channels, handlers, lock, false)
    }

    ghost predicate Valid()
      reads this
    {
      && Replay(maxClients, trace) == Some(Snapshot())
      && forall c :: c in channels ==> c < made
    }

    constructor (limit: int)
      ensures Valid() && trace == [] && lock == Unlocked
      ensures maxClients == ConfiguredLimit(limit)
    {
      maxClients := ConfiguredLimit(limit);
      clients, channels, handlers, lock, made := map[], map[], map[], Unlocked, 0;
      trace := [];
    }

    /** clientCount: one number from a loop over the topics. */
    method CountClients() returns (count: nat)
      ensures count == |Registrations(clients)|
    {
      count := 0;
      var topics := clients.Keys;
      assert Under(clients, topics) == Registrations(clients);
      while topics != {}
        invariant topics <= clients.Keys
        invariant count + |Under(clients, topics)| == |Registrations(clients)|
        decreases |topics|
      {
        var t :| t in topics;
        UnderOne(clients, topics, t);
        count := count + |clients[t]|;
        topics := topics - {t};
      }
      assert Under(clients, topics) == {};
    }

    /** serveTopic up to the release of the mutex. */
    method Enter(topic: string) returns (client: Option<Client>)
      requires Valid() && lock == Unlocked
      modifies this
      ensures Valid() && lock == Unlocked
      ensures client.None? <==> |Registrations(old(clients))| >= maxClients
      ensures trace == old(trace) + [if client.None? then Refuse(topic) else Register(client.value, topic)]
    {
      hide Replay, Inv, Registrations, Next;
      var c := made;
      var count := CountClients();
      SameKeys(maxClients, trace);
      if count >= maxClients {
        ReplayMore(maxClients, trace, Refuse(topic));
        RefuseNext(Snapshot(), topic);
        trace := trace + [Refuse(topic)];
        return None;
      }
      ReplayMore(maxClients, trace, Register(c, topic));
      RegisterNext(Snapshot(), c, topic);
      made := made + 1;
      channels := channels[c := Channel([], 0)];
      handlers := handlers[c := Handler(topic, Serving)];
      if topic !in clients {
        clients := clients[topic := {}];
      }
      clients := clients[topic := clients[topic] + {c}];
      trace := trace + [Register(c, topic)];
      return Some(c);
    }

    /** A handler's receive from its channel: an event, or the news that the channel is closed. */
    method Receive(c: Client) returns (event: Option<Event>)
      requires Valid() && c in channels && c in handlers && handlers[c].stage == Serving
      requires channels[c].buffer != [] || channels[c].closes > 0
      modifies this
      ensures Valid() && lock == old(lock) && clients == old(clients) && made == old(made)
      ensures event.None? <==> old(channels[c].buffer) == []
      ensures event.Some? ==> event.value == old(channels[c].buffer)[0]
      ensures trace == old(trace) + [if event.None? then SeeClosed(c) else Action.Receive(c, event.value)]
      ensures handlers == if event.Some? then old(handlers)
                          else old(handlers)[c := Handler(old(handlers[c].topic), Leaving)]
    {
      hide Replay, Inv, Registrations;
      if channels[c].buffer == [] {
        ReplayMore(maxClients, trace, SeeClosed(c));
        handlers := handlers[c := handlers[c].(stage := Leaving)];
        trace := trace + [SeeClosed(c)];
        return None;
      }
      var e := channels[c].buffer[0];
      ReplayMore(maxClients, trace, Action.Receive(c, e));
      channels := channels[c := channels[c].(buffer := channels[c].buffer[1..])];
      trace := trace + [Action.Receive(c, e)];
      return Some(e);
    }

    /** A handler leaves its loop: its context is done, or a write or a flush failed. */
    method Leave(c: Client)
      requires Valid() && c in channels && c in handlers && handlers[c].stage == Serving
      modifies this
      ensures Valid() && lock == old(lock) && clients == old(clients) && made == old(made)
      ensures trace == old(trace) + [Action.Leave(c)]
      ensures channels == old(channels) && handlers == old(handlers)[c := Handler(old(handlers[c].topic), Leaving)]
    {
      hide Replay, Inv, Registrations;
      ReplayMore(maxClients, trace, Action.Leave(c));
      handlers := handlers[c := handlers[c].(stage := Leaving)];
      trace := trace + [Action.Leave(c)];
    }

    /** Any number of steps of handlers that do not need the mutex. */
    method Interference() returns (ghost steps: seq<Action>)
      requires Valid()
      modifies this
      ensures Valid() && lock == old(lock) && clients == old(clients)
      ensures trace == old(trace) + steps
      ensures Racing(steps)
    {
      steps := [];
      var rounds: nat := *;
      while rounds > 0
        invariant Valid() && lock == old(lock) && clients == old(clients)
        invariant trace == old(trace) + steps
        invariant Racing(steps)
      {
        ghost var before := trace;
        var c: Client := *;
        var leaves := *;
        if c in channels && c in handlers && handlers[c].stage == Serving {
          if leaves {
            Leave(c);
          } else if channels[c].buffer != [] || channels[c].closes > 0 {
            var _ := Receive(c);
          }
        }
        steps := steps + trace[|before|..];
        rounds := rounds - 1;
      }
    }

    /** The `select` of publish for one client: send if its slot is free, else close and delete. */
    method OfferTo(client: Client)
      requires Valid() && lock.Publishing? && client in lock.pending
      modifies this
      ensures Valid() && lock == old(lock).(pending := old(lock).pending - {client})
      ensures client in old(channels)
      ensures trace == old(trace) + [if old(channels)[client].buffer == [] then Offer(client) else Evict(client)]
    {
      hide Replay, Inv, Registrations;
      PendingOpen(maxClients, trace, client);
      if channels[client].buffer == [] {
        ReplayMore(maxClients, trace, Offer(client));
        channels := channels[client := channels[client].(buffer := channels[client].buffer + [lock.event])];
        trace := trace + [Offer(client)];
      } else {
        ReplayMore(maxClients, trace, Evict(client));
        channels := channels[client := Closed(channels[client])];
        clients := clients[lock.topic := clients[lock.topic] - {client}];
        trace := trace + [Evict(client)];
      }
      lock := lock.(pending := lock.pending - {client});
    }

    /** One turn of publish's loop: some client is still to be dealt with, and until it is, handlers may
        receive. */
    method OfferNext() returns (ghost racing: seq<Action>, ghost offer: Action)
      requires Valid() && lock.Publishing? && lock.pending != {}
      modifies this
      ensures Racing(racing) && (offer.Offer? || offer.Evict?) && offer.client in old(lock.pending)
      ensures Valid() && lock == old(lock).(pending := old(lock).pending - {offer.client})
      ensures trace == old(trace) + racing + [offer]
    {
      hide Replay, Inv, Registrations, Racing;
      racing := Interference();
      var client :| client in lock.pending;
      offer := if client in channels && channels[client].buffer == [] then Offer(client) else Evict(client);
      OfferTo(client);
    }

    /** publish: the whole lock-held section, with the handlers that race with it. Its steps are a
        legal run: it begins, makes one offer or eviction for each client that was registered for
        the topic and ends, while handlers receive in between. */
    method Publish(topic: string, event: Event) returns (ghost steps: seq<Action>)
      requires Valid() && lock == Unlocked
      modifies this
      ensures Valid() && lock == Unlocked
      ensures trace == old(trace) + [Begin(topic, event)] + steps + [End]
      ensures Offered(steps) == TopicClients(old(Snapshot()), topic)
      ensures Offering(steps)
    {
      hide Replay, Inv, Registrations, Offering, Offered, Racing;
      OfferedNothing();
      ReplayMore(maxClients, trace, Begin(topic, event));
      ghost var all := TopicClients(Snapshot(), topic);
      lock := Publishing(topic, event, if topic in clients then clients[topic] else {});
      trace := trace + [Begin(topic, event)];
      steps := [];
      ghost var start := trace;
      while lock.pending != {}
        invariant Valid() && lock.Publishing? && lock.pending <= all
        invariant trace == start + steps && Offered(steps) == all - lock.pending
        invariant Offering(steps)
        decreases |lock.pending|
      {
        ghost var racing, offer := OfferNext();
        OfferedMore(steps, racing, offer);
        steps := steps + racing + [offer];
      }
      ReplayMore(maxClients, trace, End);
      lock := Unlocked;
      trace := trace + [End];
    }

    /** serveTopic's deferred cleanup. */
    method Exit(c: Client)
      requires Valid() && lock == Unlocked && c in channels && c in handlers && handlers[c].stage == Leaving
      modifies this
      ensures Valid() && lock == Unlocked
      ensures trace == old(trace) + [Cleanup(c)]
      ensures handlers == old(handlers)[c := Handler(old(handlers[c].topic), Finished)]
    {
      hide Replay, Inv, Registrations, Next;
      ReplayMore(maxClients, trace, Cleanup(c));
      CleanupNext(Snapshot(), c);
      var topic := handlers[c].topic;
      if topic in clients && c in clients[topic] {
        clients := clients[topic := clients[topic] - {c}];
        channels := channels[c := Closed(channels[c])];
      }
      if topic !in clients || |clients[topic]| == 0 {
        clients := clients - {topic};
      }
      handlers := handlers[c := handlers[c].(stage := Finished)];
      trace := trace + [Cleanup(c)];
    }
  }

  /** The clients that the steps of a publisher dealt with. */
  ghost function Offered(steps: seq<Action>): set<Client> {
    set a | a in steps && (a.Offer? || a.Evict?) :: a.client
  }

  lemma RefuseNext(s: State, t: string)
    requires Enabled(s, Refuse(t))
    ensures Next(s, Refuse(t)) == s
  {
  }

  /** The registration, statement by statement. */
  lemma RegisterNext(s: State, c: Client, t: string)
    requires Enabled(s, Register(c, t))
    ensures var one := if t !in s.clients then s.clients[t := {}] else s.clients;
            Next(s, Register(c, t))
            == State(s.maxClients, one[t := one[t] + {c}], s.channels[c := Channel([], 0)],
                     s.handlers[c := Handler(t, Serving)], s.lock, s.panicked)
  {
    hide Registrations;
    if t !in s.clients {
      assert s.clients[t := {}][t := {} + {c}] == s.clients[t := {} + {c}];
    }
  }

  lemma CleanedMap(m: map<string, set<Client>>, t: string, c: Client)
    ensures var one := if t in m && c in m[t] then m[t := m[t] - {c}] else m;
            var two := if t !in one || |one[t]| == 0 then one - {t} else one;
            var others := (if t in m then m[t] else {}) - {c};
            two == if others == {} then m - {t} else m[t := others]
  {
    if t in m && c !in m[t] {
      assert m[t] - {c} == m[t];
    }
  }

  /** The cleanup, statement by statement. */
  lemma CleanupNext(s: State, c: Client)
    requires Enabled(s, Cleanup(c))
    ensures var t := s.handlers[c].topic;
            var present := t in s.clients && c in s.clients[t];
            var one := if present then s.clients[t := s.clients[t] - {c}] else s.clients;
            Next(s, Cleanup(c))
            == State(s.maxClients,
                     if t !in one || |one[t]| == 0 then one - {t} else one,
                     if present then s.channels[c := Closed(s.channels[c])] else s.channels,
                     s.handlers[c := s.handlers[c].(stage := Finished)],
                     s.lock,
                     present && s.channels[c].closes > 0)
  {
    CleanedMap(s.clients, s.handlers[c].topic, c);
  }

  /** Steps of handlers that do not need the mutex. */
  ghost predicate Racing(steps: seq<Action>) {
    forall k :: 0 <= k < |steps| ==> steps[k].Receive? || steps[k].SeeClosed? || steps[k].Leave?
  }

  /** The steps of a publisher's loop and of the handlers that race with it. */
  ghost predicate Offering(steps: seq<Action>) {
    forall k :: 0 <= k < |steps| ==> steps[k].Offer? || steps[k].Evict? || Racing([steps[k]])
  }

  lemma OfferedNothing()
    ensures Offered([]) == {} && Offering([])
  {
  }

  lemma OfferedMore(steps: seq<Action>, racing: seq<Action>, offer: Action)
    requires Offering(steps) && Racing(racing) && (offer.Offer? || offer.Evict?)
    ensures Offering(steps + racing + [offer])
    ensures Offered(steps + racing + [offer]) == Offered(steps) + {offer.client}
  {
    var all := steps + racing + [offer];
    forall k | 0 <= k < |all|
      ensures all[k].Offer? || all[k].Evict? || Racing([all[k]])
    {
      assert |steps| <= k < |steps + racing| ==> all[k] == racing[k - |steps|];
    }
    assert forall a :: a in all <==> a in steps || a in racing || a == offer;
    assert forall a :: a in racing ==> Racing([a]) && !a.Offer? && !a.Evict?;
  }

  lemma PendingOpen(maxClients: nat, trace: seq<Action>, c: Client)
    requires Replay(maxClients, trace).Some?
    requires Replay(maxClients, trace).value.lock.Publishing? && c in Replay(maxClients, trace).value.lock.pending
    ensures var s := Replay(maxClients, trace).value;
            c in s.channels && s.channels[c].closes == 0 && s.lock.topic in s.clients
  {
    Reachable(maxClients, trace);
  }
}

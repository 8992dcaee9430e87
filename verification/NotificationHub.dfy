/**
  The notification hub of src/notification-hub.ts: sockets tied to credential generations, heartbeat
  timers, and the generation that is active. The state and its transitions come first, then the
  properties of whole runs; the class that performs the transitions is in NotificationHubObject.dfy.
*/
module NotificationHub {
  import opened Options

  type Socket = nat
  type Timer = nat

  datatype Protocol = JsonProtocol | MessagePack

  /** A security stamp and the time of the credential revision that set it. */
  datatype Generation = Generation(securityStamp: string, revisionTime: int)

  datatype Registration = Registration(protocol: Protocol, generation: Option<Generation>)

  /**
    The hub's maps, with what the runtime holds for it: the generation captured by each accepted
    socket's listeners, the intervals that are running, and the next interval handle.
  */
  datatype Hub = Hub(
    sockets: map<Socket, Registration>,
    heartbeats: map<Socket, Timer>,
    active: Option<Generation>,
    accepted: map<Socket, Option<Generation>>,
    timers: set<Timer>,
    nextTimer: Timer)

  const EMPTY := Hub(map[], map[], None, map[], {}, 0)

  // ----- Transitions -----

  /** The intervals that drive the heartbeats of some sockets. */
  function TimersOf(heartbeats: map<Socket, Timer>, some: set<Socket>): set<Timer> {
    set s | s in some && s in heartbeats :: heartbeats[s]
  }

  /** removeSocket for each of some sockets. */
  function Remove(h: Hub, gone: set<Socket>): Hub {
    h.(sockets := h.sockets - gone,
       heartbeats := h.heartbeats - gone,
       timers := h.timers - TimersOf(h.heartbeats, gone))
  }

  predicate Carries(r: Registration, stamp: string) {
    r.generation.Some? && r.generation.value.securityStamp == stamp
  }

  function Stale(h: Hub, stamp: string): set<Socket> {
    set s | s in h.sockets && !Carries(h.sockets[s], stamp)
  }

  /** The active generation after an offer. */
  function Newer(active: Option<Generation>, g: Generation): Option<Generation> {
    if active.None? then Some(g)
    else if active.value.securityStamp == g.securityStamp then
      if g.revisionTime > active.value.revisionTime then Some(g) else active
    else if g.revisionTime <= active.value.revisionTime then active
    else Some(g)
  }

  predicate Accepts(active: Option<Generation>, g: Generation) {
    active.Some? && active.value.securityStamp != g.securityStamp ==> g.revisionTime > active.value.revisionTime
  }

  /** advanceCredentialGeneration: a new stamp closes every socket that does not carry it. */
  function Advance(h: Hub, g: Generation): Hub {
    if !Accepts(h.active, g) then h
    else if h.active.Some? && h.active.value.securityStamp == g.securityStamp then h.(active := Newer(h.active, g))
    else Remove(h.(active := Some(g)), Stale(h, g.securityStamp))
  }

  function Invalidated(h: Hub, g: Generation): nat {
    if !Accepts(h.active, g) || (h.active.Some? && h.active.value.securityStamp == g.securityStamp) then 0
    else |Stale(h, g.securityStamp)|
  }

  /** How the sends of a handshake answer go: the greeting, whether the socket is open, the ping. */
  datatype Sends = Sends(greeting: bool, isOpen: bool, ping: bool) {
    predicate Fail() {
      !greeting || (isOpen && !ping)
    }
  }

  datatype Event =
    | Connect(socket: Socket, offer: Option<Generation>)
    | Handshake(socket: Socket, protocol: Protocol, sends: Sends)
    | Closed(socket: Socket)
    | Notify(offer: Option<Generation>, open: set<Socket>, sendable: set<Socket>)
    | Invalidate(generation: Generation)
    | Restart

  function ClearHeartbeat(h: Hub, s: Socket): Hub {
    h.(heartbeats := h.heartbeats - {s},
       timers := if s in h.heartbeats then h.timers - {h.heartbeats[s]} else h.timers)
  }

  /** A registration, and its heartbeat unless a send throws before it is started. */
  function Register(h: Hub, s: Socket, r: Registration, sends: Sends): Hub {
    var cleared := ClearHeartbeat(h, s);
    var registered := cleared.(sockets := cleared.sockets[s := r]);
    if sends.Fail() then registered
    else registered.(heartbeats := registered.heartbeats[s := registered.nextTimer],
                     timers := registered.timers + {registered.nextTimer},
                     nextTimer := registered.nextTimer + 1)
  }

  function OfferAccepted(h: Hub, offer: Option<Generation>): bool {
    offer.Some? ==> Accepts(h.active, offer.value)
  }

  function Offered(h: Hub, offer: Option<Generation>): Hub {
    if offer.Some? then Advance(h, offer.value) else h
  }

  /** Sockets a notification finds no longer open, and those it cannot be sent to. */
  function Pruned(h: Hub, open: set<Socket>): set<Socket> {
    set s | s in h.sockets && s !in open
  }

  function Failed(h: Hub, open: set<Socket>, sendable: set<Socket>): set<Socket> {
    set s | s in h.sockets && s in open && s !in sendable
  }

  function Delivered(h: Hub, open: set<Socket>, sendable: set<Socket>): set<Socket> {
    set s | s in h.sockets && s in open && s in sendable
  }

  function Step(h: Hub, e: Event): Hub {
    match e
    case Connect(s, offer) =>
      if !OfferAccepted(h, offer) then h
      else
        var next := Offered(h, offer);
        next.(accepted := next.accepted[s := offer])
    case Handshake(s, protocol, sends) =>
      if s !in h.accepted then h
      else if !OfferAccepted(h, h.accepted[s]) then Remove(h, {s})
      else Register(Offered(h, h.accepted[s]), s, Registration(protocol, h.accepted[s]), sends)
    case Closed(s) => Remove(h, {s})
    case Notify(offer, open, sendable) =>
      if !OfferAccepted(h, offer) then h
      else
        var next := Offered(h, offer);
        Remove(next, Pruned(next, open) + Failed(next, open, sendable))
    case Invalidate(g) => Advance(h, g)
    case Restart => EMPTY
  }

  function Run(h: Hub, events: seq<Event>): Hub {
    if events == [] then h else Step(Run(h, events[..|events| - 1]), events[|events| - 1])
  }

  // ----- Bookkeeping in every reachable state -----

  ghost predicate Invariant(h: Hub) {
    && (forall s :: s in h.sockets && h.sockets[s].generation.Some? ==>
          h.active.Some? && h.sockets[s].generation.value.securityStamp == h.active.value.securityStamp)
    && h.heartbeats.Keys <= h.sockets.Keys
    && (forall s :: s in h.heartbeats ==> h.heartbeats[s] in h.timers && h.heartbeats[s] < h.nextTimer)
    && (forall t :: t in h.timers ==> exists s :: s in h.heartbeats && h.heartbeats[s] == t)
    && (forall s, t :: s in h.heartbeats && t in h.heartbeats && h.heartbeats[s] == h.heartbeats[t] ==> s == t)
  }

  lemma RemoveInvariant(h: Hub, gone: set<Socket>)
    requires Invariant(h)
    ensures Invariant(Remove(h, gone))
  {
    var next := Remove(h, gone);
    forall t | t in next.timers
      ensures exists s :: s in next.heartbeats && next.heartbeats[s] == t
    {
      var s :| s in h.heartbeats && h.heartbeats[s] == t;
      assert s in next.heartbeats;
    }
  }

  lemma AdvanceInvariant(h: Hub, g: Generation)
    requires Invariant(h)
    ensures Invariant(Advance(h, g))
    ensures Accepts(h.active, g) ==>
              Advance(h, g).active.Some? && Advance(h, g).active.value.securityStamp == g.securityStamp
  {
    if Accepts(h.active, g) && !(h.active.Some? && h.active.value.securityStamp == g.securityStamp) {
      var gone := Stale(h, g.securityStamp);
      RemoveInvariant(h, gone);
      assert Remove(h.(active := Some(g)), gone) == Remove(h, gone).(active := Some(g));
    }
  }

  lemma ClearInvariant(h: Hub, s: Socket)
    requires Invariant(h)
    ensures Invariant(ClearHeartbeat(h, s))
  {
    var next := ClearHeartbeat(h, s);
    forall t | t in next.timers
      ensures exists k :: k in next.heartbeats && next.heartbeats[k] == t
    {
      var k :| k in h.heartbeats && h.heartbeats[k] == t;
      assert k in next.heartbeats;
    }
  }

  lemma StartHeartbeat(h: Hub, s: Socket)
    requires Invariant(h) && s in h.sockets && s !in h.heartbeats
    ensures Invariant(h.(heartbeats := h.heartbeats[s := h.nextTimer], timers := h.timers + {h.nextTimer},
                         nextTimer := h.nextTimer + 1))
  {
    var next := h.(heartbeats := h.heartbeats[s := h.nextTimer], timers := h.timers + {h.nextTimer},
                   nextTimer := h.nextTimer + 1);
    forall t | t in next.timers
      ensures exists k :: k in next.heartbeats && next.heartbeats[k] == t
    {
      if t in h.timers {
        var k :| k in h.heartbeats && h.heartbeats[k] == t;
        assert next.heartbeats[k] == t;
      } else {
        assert next.heartbeats[s] == t;
      }
    }
  }

  lemma RegisterInvariant(h: Hub, s: Socket, r: Registration, sends: Sends)
    requires Invariant(h)
    requires r.generation.Some? ==>
               h.active.Some? && r.generation.value.securityStamp == h.active.value.securityStamp
    ensures Invariant(Register(h, s, r, sends))
  {
    var cleared := ClearHeartbeat(h, s);
    ClearInvariant(h, s);
    var registered := cleared.(sockets := cleared.sockets[s := r]);
    assert Invariant(registered);
    if !sends.Fail() {
      StartHeartbeat(registered, s);
    }
  }

  /**
    Every event keeps the bookkeeping: a registered socket with a generation carries the active
    stamp, and running intervals belong one-to-one to registered sockets.
  */
  lemma StepInvariant(h: Hub, e: Event)
    requires Invariant(h)
    ensures Invariant(Step(h, e))
  {
    match e
    case Connect(s, offer) =>
      if offer.Some? {
        AdvanceInvariant(h, offer.value);
      }
    case Handshake(s, protocol, sends) =>
      RemoveInvariant(h, {s});
      if s in h.accepted && OfferAccepted(h, h.accepted[s]) {
        if h.accepted[s].Some? {
          AdvanceInvariant(h, h.accepted[s].value);
        }
        RegisterInvariant(Offered(h, h.accepted[s]), s, Registration(protocol, h.accepted[s]), sends);
      }
    case Closed(s) =>
      RemoveInvariant(h, {s});
    case Notify(offer, open, sendable) =>
      if offer.Some? {
        AdvanceInvariant(h, offer.value);
      }
      var next := Offered(h, offer);
      RemoveInvariant(next, Pruned(next, open) + Failed(next, open, sendable));
    case Invalidate(g) =>
      AdvanceInvariant(h, g);
    case Restart =>
  }

  lemma {:induction false} RunInvariant(events: seq<Event>)
    ensures Invariant(Run(EMPTY, events))
  {
    if events == [] {
    } else {
      RunInvariant(events[..|events| - 1]);
      StepInvariant(Run(EMPTY, events[..|events| - 1]), events[|events| - 1]);
    }
  }

  // ----- What the events do to one socket -----

  /** Another socket than some is left as it was. */
  ghost predicate Untouched(h: Hub, after: Hub, s: Socket) {
    && (s in after.sockets <==> s in h.sockets) && (s in h.sockets ==> after.sockets[s] == h.sockets[s])
    && (s in after.heartbeats <==> s in h.heartbeats) && (s in h.heartbeats ==> after.heartbeats[s] == h.heartbeats[s])
    && (s in after.accepted <==> s in h.accepted) && (s in h.accepted ==> after.accepted[s] == h.accepted[s])
  }

  /** A closed socket is gone with its heartbeat and its interval; no other socket or interval is. */
  lemma ClosedIsGone(h: Hub, s: Socket)
    ensures var after := Step(h, Closed(s));
            && s !in after.sockets && s !in after.heartbeats && after.active == h.active
            && (forall t :: t in after.timers <==> t in h.timers && !(s in h.heartbeats && h.heartbeats[s] == t))
            && forall other :: other != s ==> Untouched(h, after, other)
  {
  }

  /**
    A generation is accepted exactly when none is active, its stamp is the active one, however old it
    is itself, or it is strictly newer.
  */
  lemma AcceptedIff(h: Hub, g: Generation)
    ensures OfferAccepted(h, Some(g)) <==>
              || h.active == None || h.active.value.securityStamp == g.securityStamp
              || g.revisionTime > h.active.value.revisionTime
    ensures OfferAccepted(h, None)
  {
  }

  /**
    What an accepted generation does: its stamp is active, with the newest time known for it, and
    unless it was active before, the sockets that carry another stamp or none are gone.
  */
  lemma AdvanceIs(h: Hub, g: Generation)
    requires OfferAccepted(h, Some(g))
    ensures var after, same := Advance(h, g), h.active.Some? && h.active.value.securityStamp == g.securityStamp;
            && after.active == Some(Generation(g.securityStamp,
                                               if same && h.active.value.revisionTime > g.revisionTime
                                               then h.active.value.revisionTime else g.revisionTime))
            && (same ==> after == h.(active := after.active))
            && forall s :: s in h.sockets ==>
                 if same || (h.sockets[s].generation.Some?
                             && h.sockets[s].generation.value.securityStamp == g.securityStamp)
                 then Untouched(h, after, s) else s !in after.sockets && s !in after.heartbeats
  {
  }

  /** A connect is remembered with its offer exactly when that is accepted; a refused one changes nothing. */
  lemma ConnectIff(h: Hub, s: Socket, offer: Option<Generation>)
    ensures var after := Step(h, Connect(s, offer));
            if offer.None? || OfferAccepted(h, offer)
            then s in after.accepted && after.accepted[s] == offer && after.active == Offered(h, offer).active
                 && after.sockets == Offered(h, offer).sockets && after.heartbeats == Offered(h, offer).heartbeats
            else after == h
  {
  }

  /**
    A handshake registers its socket under the protocol and the generation it connected with, and
    starts its heartbeat if its sends succeed; but if that generation is no longer accepted, the
    socket is gone.
  */
  lemma HandshakeIs(h: Hub, s: Socket, protocol: Protocol, sends: Sends)
    requires s in h.accepted
    ensures var after := Step(h, Handshake(s, protocol, sends));
            if OfferAccepted(h, h.accepted[s]) then
              && s in after.sockets && after.sockets[s] == Registration(protocol, h.accepted[s])
              && (sends.greeting && (sends.isOpen ==> sends.ping) <==> s in after.heartbeats)
              && (s in after.heartbeats ==> after.heartbeats[s] == h.nextTimer && h.nextTimer in after.timers)
              && forall other :: other != s ==> Untouched(Offered(h, h.accepted[s]), after, other)
            else
              && s !in after.sockets && s !in after.heartbeats && after.active == h.active
              && forall other :: other != s ==> Untouched(h, after, other)
  {
  }

  /** Every registered socket has a running heartbeat. */
  predicate FullHeartbeats(h: Hub) {
    h.heartbeats.Keys == h.sockets.Keys
  }

  /** A handshake that registers its socket and then fails to send. */
  predicate HandshakeFails(h: Hub, e: Event) {
    e.Handshake? && e.socket in h.accepted && OfferAccepted(h, h.accepted[e.socket]) && e.sends.Fail()
  }

  /** The one event that leaves a registered socket without a heartbeat, exactly. */
  lemma HeartbeatIff(h: Hub, e: Event)
    requires FullHeartbeats(h)
    ensures FullHeartbeats(Step(h, e)) <==> !HandshakeFails(h, e)
  {
    if e.Handshake? && e.socket in h.accepted && OfferAccepted(h, h.accepted[e.socket]) {
      var next := Offered(h, h.accepted[e.socket]);
      assert FullHeartbeats(next);
      assert e.socket in Step(h, e).sockets;
    }
  }

  ghost predicate AlwaysFull(events: seq<Event>) {
    forall k :: 0 <= k <= |events| ==> FullHeartbeats(Run(EMPTY, events[..k]))
  }

  ghost predicate NoFailingHandshake(events: seq<Event>) {
    forall k :: 0 <= k < |events| ==> !HandshakeFails(Run(EMPTY, events[..k]), events[k])
  }

  /** Registered sockets have heartbeats throughout a run exactly when none of its handshakes fails. */
  lemma {:induction false} HeartbeatsThroughout(events: seq<Event>)
    ensures AlwaysFull(events) <==> NoFailingHandshake(events)
  {
    hide Step, FullHeartbeats, HandshakeFails;
    if events == [] {
      assert forall k :: 0 <= k <= |events| ==> events[..k] == [];
      assert FullHeartbeats(EMPTY) by { EmptyFull(); }
    } else {
      var n := |events| - 1;
      var before := events[..n];
      assert forall k :: 0 <= k <= n ==> before[..k] == events[..k];
      HeartbeatsThroughout(before);
      assert events[..n + 1] == events;
      if FullHeartbeats(Run(EMPTY, before)) {
        HeartbeatIff(Run(EMPTY, before), events[n]);
      }
      assert Run(EMPTY, events) == Step(Run(EMPTY, before), events[n]);
    }
  }

  lemma EmptyFull()
    ensures FullHeartbeats(EMPTY)
  {
  }

  /** Such a run exists: an accepted anonymous socket whose greeting cannot be sent. */
  lemma HeartbeatMissing()
    ensures var h := Run(EMPTY, [Connect(0, None), Handshake(0, JsonProtocol, Sends(false, true, true))]);
            0 in h.sockets && 0 !in h.heartbeats
  {
    var events := [Connect(0, None), Handshake(0, JsonProtocol, Sends(false, true, true))];
    assert events[..1] == [Connect(0, None)] && events[..1][..0] == [];
    assert Run(EMPTY, events[..1]) == Step(EMPTY, events[0]);
  }

  /** A notification accounts for every socket: closed, pruned, failed, or still there and served. */
  lemma NotifyAccounting(h: Hub, offer: Option<Generation>, open: set<Socket>, sendable: set<Socket>)
    requires OfferAccepted(h, offer)
    ensures var after := Offered(h, offer);
            && |h.sockets| == (if offer.Some? then Invalidated(h, offer.value) else 0)
                              + |Pruned(after, open)| + |Failed(after, open, sendable)|
                              + |Delivered(after, open, sendable)|
            && Step(h, Notify(offer, open, sendable)).sockets.Keys == Delivered(after, open, sendable)
            && forall s :: s in after.sockets ==>
                 && (s in Pruned(after, open) <==> s !in open)
                 && (s in Failed(after, open, sendable) <==> s in open && s !in sendable)
                 && (s in Delivered(after, open, sendable) <==> s in open && s in sendable)
  {
    var after := Offered(h, offer);
    if offer.Some? {
      AdvanceCount(h, offer.value);
    }
    var p, f, d := Pruned(after, open), Failed(after, open, sendable), Delivered(after, open, sendable);
    assert after.sockets.Keys == p + f + d;
    assert |after.sockets.Keys| == |p| + |f| + |d|;
  }

  lemma AdvanceCount(h: Hub, g: Generation)
    ensures |h.sockets| == |Advance(h, g).sockets| + Invalidated(h, g)
  {
    if Accepts(h.active, g) && !(h.active.Some? && h.active.value.securityStamp == g.securityStamp) {
      RemoveCount(h.sockets, Stale(h, g.securityStamp));
    }
  }

  lemma RemoveCount<K, V>(m: map<K, V>, gone: set<K>)
    requires gone <= m.Keys
    ensures |m - gone| + |gone| == |m|
  {
    var kept := m.Keys - gone;
    assert (m - gone).Keys == kept && kept + gone == m.Keys;
    assert |kept + gone| == |kept| + |gone|;
  }

  // ----- Convergence -----

  /** The active generation after a sequence of offers, from a fresh hub. */
  function AfterOffers(offers: seq<Generation>): Option<Generation> {
    if offers == [] then None else Newer(AfterOffers(offers[..|offers| - 1]), offers[|offers| - 1])
  }

  ghost predicate NewestOf(g: Generation, all: set<Generation>) {
    g in all && forall x :: x in all ==> x.revisionTime <= g.revisionTime
  }

  ghost function Elements<T(!new)>(s: seq<T>): set<T> {
    set x | x in s
  }

  /** The active generation is one that was offered, and none offered is newer. */
  lemma {:induction false} ActiveIsNewest(offers: seq<Generation>)
    requires offers != []
    ensures AfterOffers(offers).Some? && NewestOf(AfterOffers(offers).value, Elements(offers))
  {
    var before := offers[..|offers| - 1];
    assert offers == before + [offers[|offers| - 1]];
    if before == [] {
    } else {
      ActiveIsNewest(before);
    }
  }

  function Outcome(active: Option<Generation>): Option<(string, int)> {
    if active.None? then None else Some((active.value.securityStamp, active.value.revisionTime))
  }

  /** All the newest offers are for one stamp. */
  ghost predicate OneNewestStamp(all: set<Generation>) {
    forall x, y :: NewestOf(x, all) && NewestOf(y, all) ==> x.securityStamp == y.securityStamp
  }

  ghost predicate OrderIndependent(all: set<Generation>) {
    forall a, b :: Elements(a) == all && Elements(b) == all ==> Outcome(AfterOffers(a)) == Outcome(AfterOffers(b))
  }

  lemma {:induction false} Enumerate<T(!new)>(all: set<T>) returns (s: seq<T>)
    ensures Elements(s) == all
  {
    if all == {} {
      s := [];
    } else {
      var x :| x in all;
      var rest := Enumerate(all - {x});
      s := [x] + rest;
      assert forall y :: y in s <==> y == x || y in rest;
      assert Elements(s) == {x} + Elements(rest);
    }
  }

  /** Once a newest offer is active, its stamp stays. */
  lemma {:induction false} NewestStays(first: Generation, rest: seq<Generation>)
    requires forall x :: x in rest ==> x.revisionTime <= first.revisionTime
    ensures AfterOffers([first] + rest).Some?
    ensures AfterOffers([first] + rest).value.securityStamp == first.securityStamp
    ensures AfterOffers([first] + rest).value.revisionTime == first.revisionTime
  {
    var offers := [first] + rest;
    if rest == [] {
      assert offers[..0] == [];
      assert AfterOffers(offers) == Newer(AfterOffers([]), first);
    } else {
      var last := rest[|rest| - 1];
      assert offers[..|offers| - 1] == [first] + rest[..|rest| - 1];
      NewestStays(first, rest[..|rest| - 1]);
    }
  }

  /**
    The hub converges, whatever the order and duplication of the offers, exactly when the newest
    revision time stands for one stamp.
  */
  lemma ConvergesIff(all: set<Generation>)
    ensures OrderIndependent(all) <==> OneNewestStamp(all)
  {
    if OneNewestStamp(all) {
      forall a: seq<Generation>, b: seq<Generation> | Elements(a) == all && Elements(b) == all
        ensures Outcome(AfterOffers(a)) == Outcome(AfterOffers(b))
      {
        if all == {} {
          EmptySequence(a);
          EmptySequence(b);
        } else {
          var x :| x in all;
          assert x in a && x in b;
          ActiveIsNewest(a);
          ActiveIsNewest(b);
        }
      }
    } else {
      var x, y :| NewestOf(x, all) && NewestOf(y, all) && x.securityStamp != y.securityStamp;
      var s := Enumerate(all);
      NewestStays(x, s);
      NewestStays(y, s);
      assert Elements([x] + s) == all && Elements([y] + s) == all;
      assert Outcome(AfterOffers([x] + s)) != Outcome(AfterOffers([y] + s));
    }
  }

  lemma EmptySequence<T(!new)>(s: seq<T>)
    ensures Elements(s) == {} <==> s == []
  {
    if s != [] {
      assert s[0] in Elements(s);
    }
  }

  // ----- Whole runs -----

  /** The generation an event brings with it. */
  function Brought(e: Event): Option<Generation> {
    match e
    case Connect(_, offer) => offer
    case Notify(offer, _, _) => offer
    case Invalidate(g) => Some(g)
    case _ => None
  }

  /** The generations brought since the object was last started: it keeps nothing across a restart. */
  ghost function AllBrought(events: seq<Event>): set<Generation> {
    if events == [] || events[|events| - 1].Restart? then {}
    else
      var e := events[|events| - 1];
      AllBrought(events[..|events| - 1]) + if Brought(e).Some? then {Brought(e).value} else {}
  }

  /** Everything in the hub came with some event, and the active generation is the newest of it. */
  ghost predicate Grounded(h: Hub, all: set<Generation>) {
    && (forall s :: s in h.accepted && h.accepted[s].Some? ==> h.accepted[s].value in all)
    && (h.active.Some? ==> NewestOf(h.active.value, all))
    && (h.active.None? ==> all == {})
  }

  lemma GroundedOffer(h: Hub, all: set<Generation>, g: Generation)
    requires Grounded(h, all)
    ensures Grounded(Advance(h, g), all + {g})
    ensures g in all ==> Grounded(Advance(h, g), all)
  {
    assert g in all ==> all + {g} == all;
    assert Advance(h, g).accepted == h.accepted;
  }

  lemma GroundedStep(h: Hub, all: set<Generation>, e: Event)
    requires Grounded(h, all) && !e.Restart?
    ensures Grounded(Step(h, e), all + (if Brought(e).Some? then {Brought(e).value} else {}))
  {
    if Brought(e).Some? {
      GroundedOffer(h, all, Brought(e).value);
    } else {
      assert all + {} == all;
    }
    if e.Handshake? && e.socket in h.accepted && h.accepted[e.socket].Some? {
      GroundedOffer(h, all, h.accepted[e.socket].value);
    }
  }

  lemma {:induction false} RunGrounded(events: seq<Event>)
    ensures Grounded(Run(EMPTY, events), AllBrought(events))
  {
    if events == [] || events[|events| - 1].Restart? {
    } else {
      var before, e := events[..|events| - 1], events[|events| - 1];
      RunGrounded(before);
      GroundedStep(Run(EMPTY, before), AllBrought(before), e);
    }
  }

  /**
    Any two runs of connects, handshakes, notifications, invalidations and closes that bring the same
    generations since their last restarts, in any order and number, end with the same active stamp
    and time.
  */
  lemma RunsConverge(a: seq<Event>, b: seq<Event>)
    requires AllBrought(a) == AllBrought(b) && OneNewestStamp(AllBrought(a))
    ensures Outcome(Run(EMPTY, a).active) == Outcome(Run(EMPTY, b).active)
  {
    RunGrounded(a);
    RunGrounded(b);
  }

  // ----- Revocation from the credential change to the last socket -----

  /** nextCredentialRevisionDate, on milliseconds (src/domain/account-credentials.ts). */
  function NextRevision(current: int, candidate: int): int {
    if candidate > current + 1 then candidate else current + 1
  }

  /** Credential changes of one account, each dated from its predecessor and the clock of the day. */
  ghost predicate CredentialChain(chain: seq<Generation>, clocks: seq<int>) {
    && |chain| >= 1 && |clocks| == |chain| - 1
    && forall i :: 0 <= i < |clocks| ==> chain[i + 1].revisionTime == NextRevision(chain[i].revisionTime, clocks[i])
  }

  lemma {:induction false} ChainIncreases(chain: seq<Generation>, clocks: seq<int>, i: nat, j: nat)
    requires CredentialChain(chain, clocks) && i < j < |chain|
    ensures chain[i].revisionTime < chain[j].revisionTime
    decreases j
  {
    assert chain[j].revisionTime == NextRevision(chain[j - 1].revisionTime, clocks[j - 1]);
    if i < j - 1 {
      ChainIncreases(chain, clocks, i, j - 1);
    }
  }

  predicate OtherStamp(g: Option<Generation>, newest: Generation) {
    g.Some? && g.value.securityStamp != newest.securityStamp
  }

  /** No socket of another stamp is registered, or gets registered by a connect or a late handshake. */
  ghost predicate Barred(h: Hub, chain: seq<Generation>, newest: Generation) {
    && (forall s :: s in h.sockets && h.sockets[s].generation.Some? ==>
          h.sockets[s].generation.value.securityStamp == newest.securityStamp)
    && (forall g, s :: g in chain && g.securityStamp != newest.securityStamp ==> Step(h, Connect(s, Some(g))) == h)
    && (forall s, p, sends :: s in h.accepted && OtherStamp(h.accepted[s], newest) ==>
          s !in Step(h, Handshake(s, p, sends)).sockets)
  }

  /**
    The newest generation of a chain is active exactly when it has reached the hub, by whatever
    event, since the last restart. Then no socket of another stamp is registered, and neither a
    connect nor the late handshake of an earlier connect with another stamp gets one registered.
  */
  lemma Revoked(chain: seq<Generation>, clocks: seq<int>, events: seq<Event>)
    requires CredentialChain(chain, clocks)
    requires forall g :: g in AllBrought(events) ==> g in chain
    ensures var h, newest := Run(EMPTY, events), chain[|chain| - 1];
            && (h.active == Some(newest) <==> newest in AllBrought(events))
            && (newest in AllBrought(events) ==> Barred(h, chain, newest))
  {
    RunGrounded(events);
    RunInvariant(events);
    var h, newest, last := Run(EMPTY, events), chain[|chain| - 1], |chain| - 1;
    forall i | 0 <= i < last
      ensures chain[i].revisionTime < newest.revisionTime
    {
      ChainIncreases(chain, clocks, i, last);
    }
    if newest in AllBrought(events) {
      assert h.active.Some? && h.active.value in chain;
      assert h.active == Some(newest);
      forall g, s | g in chain && g.securityStamp != newest.securityStamp
        ensures Step(h, Connect(s, Some(g))) == h
      {
        assert !Accepts(h.active, g);
      }
      forall s, p, sends | s in h.accepted && OtherStamp(h.accepted[s], newest)
        ensures s !in Step(h, Handshake(s, p, sends)).sockets
      {
        assert h.accepted[s].value in chain && !Accepts(h.active, h.accepted[s].value);
      }
    }
  }

  /** A restarted object has forgotten: it registers a socket of a stamp that was revoked before. */
  lemma RestartForgets(older: Generation, newest: Generation)
    ensures var events := [Invalidate(newest), Restart, Connect(0, Some(older)),
                           Handshake(0, JsonProtocol, Sends(true, true, true))];
            var h := Run(EMPTY, events);
            0 in h.sockets && h.sockets[0].generation == Some(older)
  {
    var events := [Invalidate(newest), Restart, Connect(0, Some(older)),
                   Handshake(0, JsonProtocol, Sends(true, true, true))];
    assert events[..3][..2] == events[..2];
    assert Run(EMPTY, events[..2]) == EMPTY;
    assert Run(EMPTY, events[..3]) == Step(EMPTY, events[2]);
    assert Run(EMPTY, events) == Step(Step(EMPTY, events[2]), events[3]);
  }
}

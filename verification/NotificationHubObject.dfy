/** The hub as the durable object it is: maps updated in place, each method one transition of its state. */
module NotificationHubObject {
  import opened NotificationHub
  import opened Options

  /** The two generation headers: both missing, unreadable, or a generation. */
  datatype Header = Absent | Malformed | Given(generation: Generation)

  function OfferOf(header: Header): Option<Generation> {
    if header.Given? then Some(header.generation) else None
  }

  /** A notification body: unreadable, a pending request with its generation, or a response. */
  datatype Notification = Unreadable | Pending(generation: Generation) | Response

  datatype NotifyReply = BadRequest | StaleNotification | Counts(delivered: nat, failed: nat, invalidated: nat)
  datatype InvalidateReply = BadGeneration | StaleInvalidation | Count(invalidated: nat)

  class HubObject {
    var sockets: map<Socket, Registration>
    var heartbeats: map<Socket, Timer>
    var activeGeneration: Option<Generation>
    var accepted: map<Socket, Option<Generation>>
    var timers: set<Timer>
    var nextTimer: Timer

    constructor ()
      ensures State() == EMPTY
    {
      sockets, heartbeats, activeGeneration, accepted, timers, nextTimer := map[], map[], None, map[], {}, 0;
    }

    ghost function State(): Hub
      reads this
    {
      Hub(sockets, heartbeats, activeGeneration, accepted, timers, nextTimer)
    }

    method ClearSocketHeartbeat(socket: Socket)
      modifies `heartbeats, `timers
      ensures State() == ClearHeartbeat(old(State()), socket)
    {
      if socket in heartbeats {
        timers := timers - {heartbeats[socket]};
      }
      heartbeats := heartbeats - {socket};
    }

    method RemoveSocket(socket: Socket)
      modifies `sockets, `heartbeats, `timers
      ensures State() == Remove(old(State()), {socket})
    {
      RemoveOne(State(), socket);
      ClearSocketHeartbeat(socket);
      sockets := sockets - {socket};
    }

    /** Whether the generation is accepted, and how many sockets it closed. */
    method AdvanceGeneration(generation: Generation) returns (ok: bool, invalidated: nat)
      modifies this
      ensures ok == Accepts(old(activeGeneration), generation)
      ensures State() == Advance(old(State()), generation)
      ensures invalidated == Invalidated(old(State()), generation)
    {
      if activeGeneration.Some? && activeGeneration.value.securityStamp == generation.securityStamp {
        if generation.revisionTime > activeGeneration.value.revisionTime {
          activeGeneration := Some(generation);
        }
        return true, 0;
      }
      if activeGeneration.Some? && generation.revisionTime <= activeGeneration.value.revisionTime {
        return false, 0;
      }
      activeGeneration := Some(generation);
      invalidated := CloseStale(generation.securityStamp);
      ok := true;
    }

    /** The closing loop of AdvanceGeneration. */
    method CloseStale(stamp: string) returns (invalidated: nat)
      modifies this
      ensures State() == Remove(old(State()), Stale(old(State()), stamp))
      ensures invalidated == |Stale(old(State()), stamp)|
    {
      hide TimersOf, ClearHeartbeat, Remove;
      ghost var start := State();
      ghost var stale := Stale(start, stamp);
      var rest := sockets.Keys;
      ghost var gone: set<Socket> := {};
      invalidated := 0;
      RemoveNone(start);
      while rest != {}
        invariant rest <= start.sockets.Keys && State() == Remove(start, gone)
        invariant gone == stale - rest && invalidated == |gone|
        decreases rest
      {
        var socket :| socket in rest;
        WithoutOne(stale, rest, socket);
        RemoveKeeps(start, gone, socket);
        rest := rest - {socket};
        if !Carries(sockets[socket], stamp) {
          RemoveMore(start, gone, socket);
          RemoveSocket(socket);
          gone := gone + {socket};
          invalidated := invalidated + 1;
        }
      }
      assert gone == stale;
    }

    method ConnectSocket(upgrade: bool, header: Header, socket: Socket) returns (status: nat)
      modifies this
      ensures status == if !upgrade then 426 else if header.Malformed? then 400
                        else if OfferAccepted(old(State()), OfferOf(header)) then 101 else 401
      ensures State() == if !upgrade || header.Malformed? then old(State())
                         else Step(old(State()), Connect(socket, OfferOf(header)))
    {
      if !upgrade {
        return 426;
      }
      if header.Malformed? {
        return 400;
      }
      if header.Given? {
        var ok, _ := AdvanceGeneration(header.generation);
        if !ok {
          return 401;
        }
      }
      accepted := accepted[socket := OfferOf(header)];
      return 101;
    }

    /** The message listener, once a frame names a protocol; a throwing send ends it early. */
    method HandshakeMessage(socket: Socket, protocol: Protocol, sends: Sends)
      requires socket in accepted
      modifies this
      ensures State() == Step(old(State()), Handshake(socket, protocol, sends))
    {
      var generation := accepted[socket];
      if generation.Some? {
        var ok, _ := AdvanceGeneration(generation.value);
        if !ok {
          RemoveSocket(socket);
          return;
        }
      }
      ClearSocketHeartbeat(socket);
      sockets := sockets[socket := Registration(protocol, generation)];
      if !sends.greeting {
        return;
      }
      if sends.isOpen && !sends.ping {
        return;
      }
      heartbeats := heartbeats[socket := nextTimer];
      timers := timers + {nextTimer};
      nextTimer := nextTimer + 1;
    }

    method SocketClosed(socket: Socket)
      modifies this
      ensures State() == Step(old(State()), Closed(socket))
    {
      RemoveSocket(socket);
    }

    method NotifyAll(notification: Notification, open: set<Socket>, sendable: set<Socket>)
      returns (reply: NotifyReply)
      modifies this
      ensures notification.Unreadable? ==> reply == BadRequest && State() == old(State())
      ensures !notification.Unreadable? ==>
                var offer := if notification.Pending? then Some(notification.generation) else None;
                var after := Offered(old(State()), offer);
                && State() == Step(old(State()), Notify(offer, open, sendable))
                && reply ==
                     if !OfferAccepted(old(State()), offer) then StaleNotification
                     else Counts(|Delivered(after, open, sendable)|, |Failed(after, open, sendable)|,
                                 if offer.Some? then Invalidated(old(State()), offer.value) else 0)
    {
      if notification.Unreadable? {
        return BadRequest;
      }
      var invalidated := 0;
      if notification.Pending? {
        var ok, closed := AdvanceGeneration(notification.generation);
        if !ok {
          return StaleNotification;
        }
        invalidated := closed;
      }
      var delivered, failed := DeliverToAll(open, sendable);
      return Counts(delivered, failed, invalidated);
    }

    /** The delivery loop of a notification. */
    method DeliverToAll(open: set<Socket>, sendable: set<Socket>) returns (delivered: nat, failed: nat)
      modifies this
      ensures State() == Remove(old(State()), Pruned(old(State()), open) + Failed(old(State()), open, sendable))
      ensures delivered == |Delivered(old(State()), open, sendable)|
      ensures failed == |Failed(old(State()), open, sendable)|
    {
      hide TimersOf, ClearHeartbeat, Remove, Pruned, Failed, Delivered, Progress;
      ghost var start := State();
      var rest := sockets.Keys;
      ghost var gone: set<Socket> := {};
      delivered, failed := 0, 0;
      RemoveNone(start);
      ProgressStart(start, open, sendable);
      while rest != {}
        invariant rest <= start.sockets.Keys && State() == Remove(start, gone)
        invariant Progress(start, open, sendable, rest, gone, delivered, failed)
        decreases rest
      {
        var socket :| socket in rest;
        if socket !in open {
          ProgressPruned(start, open, sendable, rest, gone, delivered, failed, socket);
          RemoveMore(start, gone, socket);
          RemoveSocket(socket);
          gone := gone + {socket};
        } else if socket in sendable {
          ProgressServed(start, open, sendable, rest, gone, delivered, failed, socket);
          delivered := delivered + 1;
        } else {
          ProgressFailed(start, open, sendable, rest, gone, delivered, failed, socket);
          failed := failed + 1;
          RemoveMore(start, gone, socket);
          RemoveSocket(socket);
          gone := gone + {socket};
        }
        rest := rest - {socket};
      }
      ProgressEnd(start, open, sendable, gone, delivered, failed);
    }

    method InvalidateSessions(header: Header) returns (reply: InvalidateReply)
      modifies this
      ensures !header.Given? ==> reply == BadGeneration && State() == old(State())
      ensures header.Given? ==>
                && State() == Step(old(State()), Invalidate(header.generation))
                && reply == if Accepts(old(activeGeneration), header.generation)
                            then Count(Invalidated(old(State()), header.generation)) else StaleInvalidation
    {
      if !header.Given? {
        return BadGeneration;
      }
      var ok, invalidated := AdvanceGeneration(header.generation);
      if !ok {
        return StaleInvalidation;
      }
      return Count(invalidated);
    }
  }

  lemma RemoveNone(h: Hub)
    ensures Remove(h, {}) == h
  {
    assert h.sockets - {} == h.sockets && h.heartbeats - {} == h.heartbeats;
  }

  lemma RemoveOne(h: Hub, s: Socket)
    ensures Remove(h, {s}) == ClearHeartbeat(h, s).(sockets := h.sockets - {s})
  {
    assert TimersOf(h.heartbeats, {s}) == if s in h.heartbeats then {h.heartbeats[s]} else {};
  }

  lemma TimersOfMore(heartbeats: map<Socket, Timer>, gone: set<Socket>, s: Socket)
    requires s !in gone
    ensures TimersOf(heartbeats, gone + {s}) == TimersOf(heartbeats, gone) + TimersOf(heartbeats - gone, {s})
  {
    var all := TimersOf(heartbeats, gone + {s});
    var first, one := TimersOf(heartbeats, gone), TimersOf(heartbeats - gone, {s});
    forall t | t in all
      ensures t in first + one
    {
      var k :| k in gone + {s} && k in heartbeats && heartbeats[k] == t;
      assert k in gone || k in heartbeats - gone;
    }
  }

  /** Removing sockets one after another is removing them together. */
  lemma RemoveMore(h: Hub, gone: set<Socket>, s: Socket)
    requires s !in gone
    ensures Remove(Remove(h, gone), {s}) == Remove(h, gone + {s})
  {
    TimersOfMore(h.heartbeats, gone, s);
    var first, both := Remove(h, gone), Remove(h, gone + {s});
    assert first.sockets - {s} == both.sockets && first.heartbeats - {s} == both.heartbeats;
  }

  /** How far a delivery has come: the rest is still to be tried, and the others are accounted for. */
  ghost predicate Progress(h: Hub, open: set<Socket>, sendable: set<Socket>, rest: set<Socket>,
                           gone: set<Socket>, delivered: nat, failed: nat) {
    (gone, delivered, failed) == (Pruned(h, open) + Failed(h, open, sendable) - rest,
                                  |Delivered(h, open, sendable) - rest|, |Failed(h, open, sendable) - rest|)
  }

  lemma ProgressStart(h: Hub, open: set<Socket>, sendable: set<Socket>)
    ensures Progress(h, open, sendable, h.sockets.Keys, {}, 0, 0)
  {
    assert Pruned(h, open) + Failed(h, open, sendable) - h.sockets.Keys == {};
    assert Delivered(h, open, sendable) - h.sockets.Keys == {};
    assert Failed(h, open, sendable) - h.sockets.Keys == {};
  }

  lemma ProgressPruned(h: Hub, open: set<Socket>, sendable: set<Socket>, rest: set<Socket>,
                       gone: set<Socket>, delivered: nat, failed: nat, s: Socket)
    requires Progress(h, open, sendable, rest, gone, delivered, failed) && s in rest && s in h.sockets && s !in open
    ensures s !in gone && Progress(h, open, sendable, rest - {s}, gone + {s}, delivered, failed)
  {
    WithoutOne(Pruned(h, open) + Failed(h, open, sendable), rest, s);
    WithoutOne(Delivered(h, open, sendable), rest, s);
    WithoutOne(Failed(h, open, sendable), rest, s);
  }

  lemma ProgressServed(h: Hub, open: set<Socket>, sendable: set<Socket>, rest: set<Socket>,
                       gone: set<Socket>, delivered: nat, failed: nat, s: Socket)
    requires Progress(h, open, sendable, rest, gone, delivered, failed) && s in rest && s in h.sockets
    requires s in open && s in sendable
    ensures Progress(h, open, sendable, rest - {s}, gone, delivered + 1, failed)
  {
    WithoutOne(Pruned(h, open) + Failed(h, open, sendable), rest, s);
    WithoutOne(Delivered(h, open, sendable), rest, s);
    WithoutOne(Failed(h, open, sendable), rest, s);
  }

  lemma ProgressFailed(h: Hub, open: set<Socket>, sendable: set<Socket>, rest: set<Socket>,
                       gone: set<Socket>, delivered: nat, failed: nat, s: Socket)
    requires Progress(h, open, sendable, rest, gone, delivered, failed) && s in rest && s in h.sockets
    requires s in open && s !in sendable
    ensures s !in gone && Progress(h, open, sendable, rest - {s}, gone + {s}, delivered, failed + 1)
  {
    WithoutOne(Pruned(h, open) + Failed(h, open, sendable), rest, s);
    WithoutOne(Delivered(h, open, sendable), rest, s);
    WithoutOne(Failed(h, open, sendable), rest, s);
  }

  lemma ProgressEnd(h: Hub, open: set<Socket>, sendable: set<Socket>, gone: set<Socket>, delivered: nat, failed: nat)
    requires Progress(h, open, sendable, {}, gone, delivered, failed)
    ensures gone == Pruned(h, open) + Failed(h, open, sendable)
    ensures delivered == |Delivered(h, open, sendable)| && failed == |Failed(h, open, sendable)|
  {
    hide Pruned, Failed, Delivered;
    assert Pruned(h, open) + Failed(h, open, sendable) - {} == Pruned(h, open) + Failed(h, open, sendable);
    assert Delivered(h, open, sendable) - {} == Delivered(h, open, sendable);
    assert Failed(h, open, sendable) - {} == Failed(h, open, sendable);
  }

  lemma RemoveKeeps(h: Hub, gone: set<Socket>, s: Socket)
    requires s in h.sockets && s !in gone
    ensures s in Remove(h, gone).sockets && Remove(h, gone).sockets[s] == h.sockets[s]
  {
  }

  lemma WithoutOne<T>(all: set<T>, rest: set<T>, x: T)
    requires x in rest
    ensures all - (rest - {x}) == (all - rest) + (if x in all then {x} else {})
    ensures |all - (rest - {x})| == |all - rest| + (if x in all then 1 else 0)
  {
  }
}

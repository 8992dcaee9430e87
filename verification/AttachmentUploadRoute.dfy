/**
  The upload route of src/app.ts in its own form: one request's statements in order, with its flags,
  while other requests run at every await. It takes only the steps of AttachmentUpload.
*/
module AttachmentUploadRoute {
  import opened AttachmentUpload

  /** How each awaited call of the request ends. */
  datatype Calls = Calls(lookup: Call, reserve: Call, recheck: Call, put: Call,
                         mark: Call, verify: Call, compensate: Call, audit: Call)

  /** What the rest of the system does before each await of the request returns. */
  datatype Meanwhile = Meanwhile(body: seq<Event>, reserve: seq<Event>, recheck: seq<Event>, put: seq<Event>,
                                 mark: seq<Event>, verify: seq<Event>, compensate: seq<Event>, audit: seq<Event>) {
    ghost predicate Leaves(r: Request) {
      && Others(body, r) && Others(reserve, r) && Others(recheck, r) && Others(put, r)
      && Others(mark, r) && Others(verify, r) && Others(compensate, r) && Others(audit, r)
    }
  }

  predicate Moves(e: Event, r: Request) {
    (e.Begin? || e.Receive? || e.Proceed?) && e.request == r
  }

  predicate Others(events: seq<Event>, r: Request) {
    forall e :: e in events ==> !Moves(e, r)
  }

  lemma {:induction false} OthersKeep(w: World, events: seq<Event>, r: Request)
    requires Others(events, r) && r in w.requests
    ensures r in Run(w, events).requests && Run(w, events).requests[r] == w.requests[r]
  {
    hide Effect, Next, CanAllocate, Looked, Received;
    if events == [] {
    } else {
      OthersKeep(w, events[..|events| - 1], r);
      assert !Moves(events[|events| - 1], r);
    }
  }

  lemma {:induction false} RunConcat(w: World, a: seq<Event>, b: seq<Event>)
    ensures Run(w, a + b) == Run(Run(w, a), b)
    decreases |b|
  {
    hide Step;
    if b == [] {
      assert a + b == a;
    } else {
      assert (a + b)[..|a + b| - 1] == a + b[..|b| - 1];
      RunConcat(w, a, b[..|b| - 1]);
    }
  }

  class Deployment {
    ghost var store: Store
    ghost var used: set<Id>
    ghost var requests: map<Request, Phase>
    ghost var now: int
    /** Everything that has happened, and the world it began with. */
    ghost var start: World
    ghost var trace: seq<Event>

    ghost function State(): World
      reads this
    {
      World(store, used, requests, now)
    }

    ghost predicate Traced()
      reads this
    {
      State() == Run(start, trace)
    }

    ghost predicate At(r: Request, p: Phase)
      reads this
    {
      r in requests && requests[r] == p
    }

    /** An await: the rest of the system runs. */
    ghost method Await(events: seq<Event>, r: Request)
      requires Traced() && Others(events, r) && r in requests
      modifies this
      ensures Traced() && start == old(start) && At(r, old(requests[r]))
      ensures State() == Run(old(State()), events)
    {
      RunConcat(start, trace, events);
      OthersKeep(State(), events, r);
      var w := Run(State(), events);
      store, used, requests, now := w.store, w.used, w.requests, w.now;
      trace := trace + events;
    }

    /** Records the event that the statements just made amount to. */
    ghost method Record(e: Event, before: World)
      requires before == Run(start, trace) && State() == Step(before, e)
      modifies this`trace
      ensures Traced()
    {
      assert (trace + [e])[..|trace|] == trace;
      trace := trace + [e];
    }

    /** The reservation: its lease update, then the second lookup when it was refused. */
    ghost method Reserve(r: Request, id: Id, size: nat, at: int, calls: Calls, meanwhile: Meanwhile)
      returns (ended: bool, status: nat, transition: bool)
      requires Traced() && meanwhile.Leaves(r) && At(r, Reserving(id, size, at))
      modifies this
      ensures Traced() && start == old(start)
      ensures ended ==> At(r, Done(id, status, false))
      ensures !ended ==> At(r, Putting(id, size, at, transition))
    {
      hide Total;
      Await(meanwhile.reserve, r);
      var before := State();
      var reserved := CanReserve(store, id, size, at);
      if reserved && !calls.reserve.NotApplied? {
        store := store.(rows := store.rows[id := store.rows[id].(updatedAt := at)]);
      }
      if !calls.reserve.Answered? {
        requests := requests[r := Done(id, 503, false)];
        Record(Proceed(r, calls.reserve), before);
        return true, 503, false;
      }
      if reserved {
        requests := requests[r := Putting(id, size, at, true)];
        Record(Proceed(r, calls.reserve), before);
        return false, 0, true;
      }
      requests := requests[r := Rechecking(id, size, at)];
      Record(Proceed(r, calls.reserve), before);
      ended, status := Recheck(r, id, size, at, calls, meanwhile);
      transition := false;
    }

    ghost method Recheck(r: Request, id: Id, size: nat, at: int, calls: Calls, meanwhile: Meanwhile)
      returns (ended: bool, status: nat)
      requires Traced() && meanwhile.Leaves(r) && At(r, Rechecking(id, size, at))
      modifies this
      ensures Traced() && start == old(start)
      ensures if ended then At(r, Done(id, status, false)) else At(r, Putting(id, size, at, false))
    {
      hide Total;
      Await(meanwhile.recheck, r);
      var before := State();
      ended := true;
      if !calls.recheck.Answered? {
        status := 503;
      } else if id !in store.rows {
        status := 404;
      } else if !store.rows[id].uploaded {
        status := 413;
      } else {
        ended, status := false, 0;
      }
      requests := requests[r := if ended then Done(id, status, false) else Putting(id, size, at, false)];
      Record(Proceed(r, calls.recheck), before);
    }

    /** The pending-to-uploaded transition, the read that settles a failed one, and the audit. */
    ghost method Transition(r: Request, id: Id, size: nat, at: int, calls: Calls, meanwhile: Meanwhile)
      returns (status: nat, createdAttachment: bool)
      requires Traced() && meanwhile.Leaves(r) && At(r, Marking(id, size, at))
      modifies this
      ensures Traced() && start == old(start) && At(r, Done(id, status, createdAttachment))
      ensures var marked := Run(old(State()), meanwhile.mark);
              && createdAttachment == (calls.mark.Answered? && Pending(marked.store, id))
              && (!createdAttachment ==>
                    var read := Run(Step(marked, Proceed(r, calls.mark)), meanwhile.verify);
                    Compensated(read, id, calls, status))
    {
      hide Total;
      Await(meanwhile.mark, r);
      var before := State();
      var pending := Pending(store, id);
      if pending && !calls.mark.NotApplied? {
        store := store.(rows := store.rows[id := Row(store.rows[id].size, true, at)]);
      }
      var stateTransitionSucceeded := calls.mark.Answered? && pending;
      if stateTransitionSucceeded {
        createdAttachment := true;
        requests := requests[r := Auditing(id)];
        Record(Proceed(r, calls.mark), before);
        Await(meanwhile.audit, r);
        before := State();
        status := if calls.audit.Answered? then 204 else 503;
        requests := requests[r := Done(id, status, true)];
        Record(Proceed(r, calls.audit), before);
      } else {
        createdAttachment := false;
        requests := requests[r := Verifying(id)];
        Record(Proceed(r, calls.mark), before);
        status := Verify(r, id, calls, meanwhile);
      }
    }

    /**
      What follows from the settling read: without a row the request fails and, once its delete takes
      effect, its object is gone; an uploaded row is a success; otherwise the request fails.
    */
    ghost predicate Compensated(read: World, id: Id, calls: Calls, status: nat)
      reads this
    {
      && status == (if calls.verify == Answered && Uploaded(read.store, id) then 204 else 503)
      && (calls.verify == Answered && id !in read.store.rows && calls.compensate != NotApplied ==>
            id !in store.objects)
    }

    ghost method Verify(r: Request, id: Id, calls: Calls, meanwhile: Meanwhile) returns (status: nat)
      requires Traced() && meanwhile.Leaves(r) && At(r, Verifying(id))
      modifies this
      ensures Traced() && start == old(start) && At(r, Done(id, status, false))
      ensures Compensated(Run(old(State()), meanwhile.verify), id, calls, status)
    {
      hide Total;
      Await(meanwhile.verify, r);
      var before := State();
      if calls.verify.Answered? && id !in store.rows {
        requests := requests[r := Compensating(id)];
        Record(Proceed(r, calls.verify), before);
        Await(meanwhile.compensate, r);
        before := State();
        if !calls.compensate.NotApplied? {
          store := store.(objects := store.objects - {id});
        }
        status := 503;
        requests := requests[r := Done(id, status, false)];
        Record(Proceed(r, calls.compensate), before);
      } else {
        status := if calls.verify.Answered? && store.rows[id].uploaded then 204 else 503;
        requests := requests[r := Done(id, status, false)];
        Record(Proceed(r, calls.verify), before);
      }
    }

    /** Puts the object, and moves a pending row to uploaded. */
    ghost method PutAndMark(r: Request, id: Id, size: nat, at: int, requiresUploadStateTransition: bool,
                            calls: Calls, meanwhile: Meanwhile)
      returns (status: nat, createdAttachment: bool)
      requires Traced() && meanwhile.Leaves(r) && At(r, Putting(id, size, at, requiresUploadStateTransition))
      modifies this
      ensures Traced() && start == old(start) && At(r, Done(id, status, createdAttachment))
    {
      hide Total;
      Await(meanwhile.put, r);
      var before := State();
      if !calls.put.NotApplied? {
        store := store.(objects := store.objects[id := size]);
      }
      createdAttachment := false;
      if !calls.put.Answered? {
        status := 503;
        requests := requests[r := Done(id, status, false)];
        Record(Proceed(r, calls.put), before);
      } else if requiresUploadStateTransition {
        requests := requests[r := Marking(id, size, at)];
        Record(Proceed(r, calls.put), before);
        status, createdAttachment := Transition(r, id, size, at, calls, meanwhile);
      } else {
        status := 204;
        requests := requests[r := Done(id, status, false)];
        Record(Proceed(r, calls.put), before);
      }
    }

    /**
      The whole route; lag is how far its own clock is behind the furthest one. What happened is a run
      of the protocol that ends this request with the answer given, so in a run from the beginning a
      204, like a reported creation, means that the row is uploaded and its object stored; and an object
      whose row is not uploaded was left by a request that is unfinished, failed, or kept it for its row.
    */
    ghost method Upload(r: Request, id: Id, cipherFound: bool, lookupNow: int, body: Body, lag: nat,
                        calls: Calls, meanwhile: Meanwhile)
      returns (status: nat, createdAttachment: bool)
      requires Traced() && r !in requests && meanwhile.Leaves(r)
      modifies this
      ensures Traced() && start == old(start) && At(r, Done(id, status, createdAttachment))
      ensures start == Initial(start.now) && (status == 204 || createdAttachment) ==>
                Uploaded(store, id) && Stored(store, id)
      ensures start == Initial(start.now) && id in store.objects && !Uploaded(store, id) ==>
                exists k: nat, q ::
                  && PutLast(start.now, trace, id, k) && CallBy(After(start.now, trace, k), trace[k], q)
                  && Cause(start.now, trace, q, k)
      ensures forall j :: 0 <= j < |trace| && Deletes(Run(start, trace[..j]), trace[j], id) ==>
                id !in Run(start, trace[..j + 1]).store.objects
    {
      hide Total, Step;
      status, createdAttachment := Route(r, id, cipherFound, lookupNow, body, lag, calls, meanwhile);
      if start == Initial(start.now) {
        RunInvariant(start.now, trace);
        assert Sound(store, used, requests[r]);
        if id in store.objects && !Uploaded(store, id) {
          OrphanCause(start.now, trace, id);
        }
      }
      forall j | 0 <= j < |trace| && Deletes(Run(start, trace[..j]), trace[j], id)
        ensures id !in Run(start, trace[..j + 1]).store.objects
      {
        RunNext(start, trace, j);
        StepObjects(Run(start, trace[..j]), trace[j], id);
      }
    }

    ghost method Route(r: Request, id: Id, cipherFound: bool, lookupNow: int, body: Body, lag: nat,
                       calls: Calls, meanwhile: Meanwhile)
      returns (status: nat, createdAttachment: bool)
      requires Traced() && r !in requests && meanwhile.Leaves(r)
      modifies this
      ensures Traced() && start == old(start) && At(r, Done(id, status, createdAttachment))
    {
      hide Total;
      var before := State();
      createdAttachment := false;
      if !calls.lookup.Answered? {
        status := 503;
        requests := requests[r := Done(id, status, false)];
        Record(Begin(r, id, cipherFound, lookupNow, calls.lookup), before);
        return;
      }
      if !cipherFound || id !in store.rows
         || (!store.rows[id].uploaded && store.rows[id].updatedAt + PENDING_TTL_MS <= lookupNow) {
        status := 404;
        requests := requests[r := Done(id, status, false)];
        Record(Begin(r, id, cipherFound, lookupNow, calls.lookup), before);
        return;
      }
      var attachment := store.rows[id];
      requests := requests[r := Found(id, attachment.size, attachment.uploaded)];
      Record(Begin(r, id, cipherFound, lookupNow, calls.lookup), before);
      Await(meanwhile.body, r);
      before := State();
      var uploadReservedAt := now - lag;
      if body.Malformed? || body.size > MAX_STORAGE_BYTES || body.size != attachment.size {
        status := if body.Bytes? && body.size > MAX_STORAGE_BYTES then 413 else 400;
        requests := requests[r := Done(id, status, false)];
        Record(Receive(r, body, uploadReservedAt), before);
        return;
      }
      var requiresUploadStateTransition := !attachment.uploaded;
      if requiresUploadStateTransition {
        requests := requests[r := Reserving(id, body.size, uploadReservedAt)];
        Record(Receive(r, body, uploadReservedAt), before);
        var ended, answer, transition := Reserve(r, id, attachment.size, uploadReservedAt, calls, meanwhile);
        if ended {
          return answer, false;
        }
        requiresUploadStateTransition := transition;
      } else {
        requests := requests[r := Putting(id, body.size, uploadReservedAt, false)];
        Record(Receive(r, body, uploadReservedAt), before);
      }
      status, createdAttachment :=
        PutAndMark(r, id, body.size, uploadReservedAt, requiresUploadStateTransition, calls, meanwhile);
    }
  }
}

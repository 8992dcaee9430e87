/**
  Uploads of preallocated attachments (src/app.ts, uploadPreallocatedCipherAttachmentRoute) over the
  rows of one user and the objects behind them, as atomic steps of any number of requests. Every
  call to a store may be answered, lose its reply after taking effect, or fail without effect.
*/
module AttachmentUpload {
  type Id = nat
  type Request = nat

  const MAX_STORAGE_BYTES := 0x4000_0000
  const PENDING_TTL_MS := 86_400_000

  datatype Row = Row(size: nat, uploaded: bool, updatedAt: int)

  /** The attachment rows, and the sizes of the stored objects. */
  datatype Store = Store(rows: map<Id, Row>, objects: map<Id, nat>)

  datatype Call = Answered | ReplyLost | NotApplied

  datatype Body = Malformed | Bytes(size: nat)

  /** Where a request is: the call it makes next and what it remembers. */
  datatype Phase =
    | Found(id: Id, size: nat, uploaded: bool)
    | Reserving(id: Id, size: nat, at: int)
    | Rechecking(id: Id, size: nat, at: int)
    | Putting(id: Id, size: nat, at: int, transition: bool)
    | Marking(id: Id, size: nat, at: int)
    | Verifying(id: Id)
    | Compensating(id: Id)
    | Auditing(id: Id)
    | Done(id: Id, status: nat, created: bool)

  /** Every attachment id ever allocated is in used; now is the furthest that any clock has been read. */
  datatype World = World(store: Store, used: set<Id>, requests: map<Request, Phase>, now: int)

  datatype Event =
    | Tick(passed: nat)
    | Allocate(id: Id, size: nat, at: int)
    | RemovePending(gone: set<Id>)
    | Begin(request: Request, id: Id, cipherFound: bool, lookupNow: int, call: Call)
    | Receive(request: Request, body: Body, at: int)
    | Proceed(request: Request, call: Call)

  function Initial(now: int): World {
    World(Store(map[], map[]), {}, map[], now)
  }

  // ----- The statements -----

  predicate Live(row: Row, cutoff: int) {
    row.uploaded || row.updatedAt > cutoff
  }

  function Weight(row: Row, cutoff: int): nat {
    if Live(row, cutoff) then row.size else 0
  }

  /** The bytes held by uploaded rows and by pending rows dated after a cutoff. */
  ghost function Total(rows: map<Id, Row>, cutoff: int): nat {
    if rows == map[] then 0
    else var id :| id in rows; Weight(rows[id], cutoff) + Total(rows - {id}, cutoff)
  }

  predicate Pending(store: Store, id: Id) {
    id in store.rows && !store.rows[id].uploaded
  }

  /** The condition of the pending-row insert. */
  ghost predicate CanAllocate(store: Store, size: nat, at: int) {
    size + Total(store.rows, at - PENDING_TTL_MS) <= MAX_STORAGE_BYTES
  }

  /** The condition of the lease update. */
  ghost predicate CanReserve(store: Store, id: Id, size: nat, at: int) {
    && Pending(store, id)
    && store.rows[id].updatedAt > at - PENDING_TTL_MS
    && size + Total(store.rows - {id}, at - PENDING_TTL_MS) <= MAX_STORAGE_BYTES
  }

  // ----- One request -----

  /** The first lookup of a request. */
  function Looked(store: Store, id: Id, cipherFound: bool, lookupNow: int, call: Call): Phase {
    if !call.Answered? then Done(id, 503, false)
    else if !cipherFound || id !in store.rows then Done(id, 404, false)
    else if Pending(store, id) && store.rows[id].updatedAt + PENDING_TTL_MS <= lookupNow then Done(id, 404, false)
    else Found(id, store.rows[id].size, store.rows[id].uploaded)
  }

  /** The parsed body against the row that was found; at is read from the clock afterwards. */
  function Received(p: Phase, body: Body, at: int): Phase
    requires p.Found?
  {
    if body.Malformed? then Done(p.id, 400, false)
    else if body.size > MAX_STORAGE_BYTES then Done(p.id, 413, false)
    else if body.size != p.size then Done(p.id, 400, false)
    else if p.uploaded then Putting(p.id, body.size, at, false)
    else Reserving(p.id, body.size, at)
  }

  /** What the request's next call leaves in the stores. */
  ghost function Effect(store: Store, p: Phase, call: Call): Store {
    if call.NotApplied? then store
    else match p
      case Reserving(id, size, at) =>
        if CanReserve(store, id, size, at) then store.(rows := store.rows[id := store.rows[id].(updatedAt := at)])
        else store
      case Putting(id, size, at, transition) => store.(objects := store.objects[id := size])
      case Marking(id, size, at) =>
        if Pending(store, id) then store.(rows := store.rows[id := Row(store.rows[id].size, true, at)]) else store
      case Compensating(id) => store.(objects := store.objects - {id})
      case _ => store
  }

  /** Where that call leaves the request. */
  ghost function Next(store: Store, p: Phase, call: Call): Phase {
    match p
    case Reserving(id, size, at) =>
      if !call.Answered? then Done(id, 503, false)
      else if CanReserve(store, id, size, at) then Putting(id, size, at, true)
      else Rechecking(id, size, at)
    case Rechecking(id, size, at) =>
      if !call.Answered? then Done(id, 503, false)
      else if id !in store.rows then Done(id, 404, false)
      else if !store.rows[id].uploaded then Done(id, 413, false)
      else Putting(id, size, at, false)
    case Putting(id, size, at, transition) =>
      if !call.Answered? then Done(id, 503, false)
      else if transition then Marking(id, size, at)
      else Done(id, 204, false)
    case Marking(id, size, at) =>
      if call.Answered? && Pending(store, id) then Auditing(id) else Verifying(id)
    case Verifying(id) =>
      if !call.Answered? then Done(id, 503, false)
      else if id !in store.rows then Compensating(id)
      else if store.rows[id].uploaded then Done(id, 204, false)
      else Done(id, 503, false)
    case Compensating(id) => Done(id, 503, false)
    case Auditing(id) => Done(id, if call.Answered? then 204 else 503, true)
    case _ => p
  }

  ghost function Step(w: World, e: Event): World {
    match e
    case Tick(passed) => w.(now := w.now + passed)
    case Allocate(id, size, at) =>
      if id in w.used || at > w.now || !CanAllocate(w.store, size, at) then w
      else w.(store := w.store.(rows := w.store.rows[id := Row(size, false, at)]), used := w.used + {id})
    case RemovePending(gone) =>
      w.(store := w.store.(rows := w.store.rows - PendingAmong(w.store, gone)))
    case Begin(r, id, cipherFound, lookupNow, call) =>
      if r in w.requests then w
      else w.(requests := w.requests[r := Looked(w.store, id, cipherFound, lookupNow, call)])
    case Receive(r, body, at) =>
      if r !in w.requests || !w.requests[r].Found? || at > w.now then w
      else w.(requests := w.requests[r := Received(w.requests[r], body, at)])
    case Proceed(r, call) =>
      if r !in w.requests then w
      else
        var p := w.requests[r];
        w.(store := Effect(w.store, p, call), requests := w.requests[r := Next(w.store, p, call)])
  }

  ghost function PendingAmong(store: Store, gone: set<Id>): set<Id> {
    set id | id in gone && Pending(store, id)
  }

  ghost function Run(w: World, events: seq<Event>): World {
    if events == [] then w else Step(Run(w, events[..|events| - 1]), events[|events| - 1])
  }

  // ----- An uploaded row always has its object -----

  predicate Uploaded(store: Store, id: Id) {
    id in store.rows && store.rows[id].uploaded
  }

  predicate Stored(store: Store, id: Id) {
    id in store.rows ==> id in store.objects && store.objects[id] == store.rows[id].size
  }

  ghost predicate Durable(store: Store) {
    forall id :: Uploaded(store, id) ==> Stored(store, id)
  }

  predicate Created(p: Phase) {
    p.Auditing? || (p.Done? && p.created)
  }

  /** What a request has been told, or relies on, stays true whatever the others do. */
  predicate Sound(store: Store, used: set<Id>, p: Phase) {
    && (p.id in used || (p.Done? && p.status != 204 && !p.created))
    && ((p.Found? || p.Reserving? || p.Rechecking? || p.Putting? || p.Marking?) && p.id in store.rows ==>
          store.rows[p.id].size == p.size)
    && (((p.Found? && p.uploaded) || (p.Putting? && !p.transition)) ==> Uploaded(store, p.id))
    && (p.Marking? ==> Stored(store, p.id))
    && (p.Compensating? ==> p.id !in store.rows)
    && ((Created(p) || (p.Done? && p.status == 204)) ==> Uploaded(store, p.id))
  }

  ghost predicate Invariant(w: World) {
    && w.store.rows.Keys <= w.used
    && Durable(w.store)
    && (forall r :: r in w.requests ==> Sound(w.store, w.used, w.requests[r]))
    && OneCreator(w.requests)
  }

  /** No two requests report the creation of one attachment. */
  ghost predicate OneCreator(requests: map<Request, Phase>) {
    forall r, q :: Reports(requests, r) && Reports(requests, q) && requests[r].id == requests[q].id ==> r == q
  }

  predicate Reports(requests: map<Request, Phase>, r: Request) {
    r in requests && Created(requests[r])
  }

  /** How the stores change under every step: nothing a request relies on is taken back. */
  ghost predicate Evolves(a: Store, b: Store, used: set<Id>) {
    && (forall id :: id in used && id in b.rows ==> id in a.rows && b.rows[id].size == a.rows[id].size)
    && (forall id :: Uploaded(a, id) ==> Uploaded(b, id))
    && (forall id :: id in used && id in b.rows && Stored(a, id) ==> Stored(b, id))
  }

  lemma SoundStays(a: Store, b: Store, used: set<Id>, more: set<Id>, p: Phase)
    requires Sound(a, used, p) && Evolves(a, b, used) && used <= more
    ensures Sound(b, more, p)
  {
  }

  lemma EffectEvolves(w: World, r: Request, call: Call)
    requires Invariant(w) && r in w.requests
    ensures Evolves(w.store, Effect(w.store, w.requests[r], call), w.used)
    ensures Durable(Effect(w.store, w.requests[r], call))
    ensures Effect(w.store, w.requests[r], call).rows.Keys == w.store.rows.Keys
  {
    hide Total;
  }

  lemma NextSound(w: World, r: Request, call: Call)
    requires Invariant(w) && r in w.requests
    ensures var p := w.requests[r];
            Sound(Effect(w.store, p, call), w.used, Next(w.store, p, call))
  {
    hide Total;
  }

  /** A request that starts to report creation found its row still pending. */
  lemma CreationIsFirst(w: World, r: Request, call: Call)
    requires Invariant(w) && r in w.requests
    ensures Created(Next(w.store, w.requests[r], call)) && !Created(w.requests[r]) ==>
              Pending(w.store, w.requests[r].id)
    ensures Next(w.store, w.requests[r], call).id == w.requests[r].id
    ensures OneCreator(w.requests[r := Next(w.store, w.requests[r], call)])
  {
    hide Total;
  }

  lemma StepOneCreator(w: World, e: Event)
    requires Invariant(w)
    ensures OneCreator(Step(w, e).requests)
  {
    hide Total, Effect, Next, Sound, Durable;
    var v := Step(w, e);
    if e.Begin? && e.request !in w.requests {
      assert !Created(v.requests[e.request]);
    }
    if e.Receive? && e.request in w.requests && w.requests[e.request].Found? && e.at <= w.now {
      assert !Created(v.requests[e.request]);
    }
    if e.Proceed? && e.request in w.requests {
      CreationIsFirst(w, e.request, e.call);
    }
  }

  lemma StepInvariant(w: World, e: Event)
    requires Invariant(w)
    ensures Invariant(Step(w, e)) && Evolves(w.store, Step(w, e).store, w.used) && w.used <= Step(w, e).used
  {
    hide Total, Effect, Next;
    var v := Step(w, e);
    if e.Begin? && e.request !in w.requests {
      assert Sound(v.store, v.used, v.requests[e.request]);
    }
    if e.Receive? && e.request in w.requests && w.requests[e.request].Found? && e.at <= w.now {
      assert Sound(v.store, v.used, v.requests[e.request]);
    }
    if e.Proceed? && e.request in w.requests {
      EffectEvolves(w, e.request, e.call);
      NextSound(w, e.request, e.call);
    }
    StepOneCreator(w, e);
    forall r | r in w.requests
      ensures Sound(v.store, v.used, w.requests[r])
    {
      SoundStays(w.store, v.store, w.used, v.used, w.requests[r]);
    }
    assert Evolves(w.store, v.store, w.used) && Durable(v.store);
    assert forall r :: r in v.requests ==> Sound(v.store, v.used, v.requests[r]);
  }

  lemma {:induction false} RunInvariant(now: int, events: seq<Event>)
    ensures Invariant(Run(Initial(now), events))
  {
    if events == [] {
    } else {
      RunInvariant(now, events[..|events| - 1]);
      StepInvariant(Run(Initial(now), events[..|events| - 1]), events[|events| - 1]);
    }
  }

  /**
    In every run: an uploaded row has its object, of the allocated size; at most one request
    reports an attachment's creation; and a reported creation, like every 204 answer, is backed by
    an uploaded row.
  */
  lemma UploadsAreDurable(now: int, events: seq<Event>)
    ensures var w := Run(Initial(now), events);
            && (forall id :: Uploaded(w.store, id) ==>
                  id in w.store.objects && w.store.objects[id] == w.store.rows[id].size)
            && (forall r :: Reports(w.requests, r) || Answers204(w.requests, r) ==>
                  Uploaded(w.store, w.requests[r].id))
            && OneCreator(w.requests)
  {
    RunInvariant(now, events);
    var w := Run(Initial(now), events);
    forall id | Uploaded(w.store, id)
      ensures id in w.store.objects && w.store.objects[id] == w.store.rows[id].size
    {
      assert Stored(w.store, id);
    }
  }

  predicate Answers204(requests: map<Request, Phase>, r: Request) {
    r in requests && requests[r].Done? && requests[r].status == 204
  }

  /** An uploaded row, and a missing one, stay so for the rest of the run. */
  lemma {:induction false} SettledForGood(now: int, events: seq<Event>, k: nat, id: Id)
    requires k <= |events|
    ensures var early, late := Run(Initial(now), events[..k]), Run(Initial(now), events);
            && (Uploaded(early.store, id) ==> Uploaded(late.store, id))
            && (id in early.used && id !in early.store.rows ==> id in late.used && id !in late.store.rows)
  {
    if k == |events| {
      assert events[..k] == events;
    } else {
      var before := events[..|events| - 1];
      assert before[..k] == events[..k];
      SettledForGood(now, before, k, id);
      RunInvariant(now, before);
      StepInvariant(Run(Initial(now), before), events[|events| - 1]);
    }
  }

  // ----- An object without a row has a cause -----

  ghost function After(now: int, events: seq<Event>, k: nat): World
    requires k <= |events|
  {
    Run(Initial(now), events[..k])
  }

  /** The call that a request is about to make in this event. */
  predicate CallBy(w: World, e: Event, r: Request) {
    e.Proceed? && e.request == r && r in w.requests
  }

  /** The event writes an object, whether or not the request learns of it. */
  predicate Puts(w: World, e: Event, id: Id) {
    e.Proceed? && e.request in w.requests && w.requests[e.request].Putting? && w.requests[e.request].id == id
    && e.call != NotApplied
  }

  /** The event is a compensating call that takes effect. */
  predicate Deletes(w: World, e: Event, id: Id) {
    e.Proceed? && e.request in w.requests && w.requests[e.request] == Compensating(id) && e.call != NotApplied
  }

  lemma StepObjects(w: World, e: Event, id: Id)
    ensures id in Step(w, e).store.objects <==> Puts(w, e, id) || (id in w.store.objects && !Deletes(w, e, id))
  {
    hide Total, CanReserve, CanAllocate, Next;
  }

  ghost predicate PutLast(now: int, events: seq<Event>, id: Id, k: nat) {
    && k < |events| && Puts(After(now, events, k), events[k], id)
    && forall j :: k < j < |events| ==> !Deletes(After(now, events, j), events[j], id)
  }

  /** An object is there exactly when a put wrote it and no compensating call has taken effect since. */
  lemma {:induction false} ObjectIff(now: int, events: seq<Event>, id: Id)
    ensures id in Run(Initial(now), events).store.objects <==> exists k: nat :: PutLast(now, events, id, k)
  {
    hide Step, Puts, Deletes;
    if events == [] {
    } else {
      var n := |events| - 1;
      var before := events[..n];
      assert forall k :: 0 <= k <= n ==> before[..k] == events[..k];
      ObjectIff(now, before, id);
      StepObjects(After(now, events, n), events[n], id);
      forall k: nat
        ensures PutLast(now, events, id, k) <==>
                  (k == n && Puts(After(now, events, n), events[n], id))
                  || (PutLast(now, before, id, k) && !Deletes(After(now, events, n), events[n], id))
      {
        PutLastMore(now, events, id, k);
      }
      if Puts(After(now, events, n), events[n], id) {
        assert PutLast(now, events, id, n);
      } else if id in Run(Initial(now), before).store.objects && !Deletes(After(now, events, n), events[n], id) {
        var k: nat :| PutLast(now, before, id, k);
        assert PutLast(now, events, id, k);
      }
    }
  }

  lemma PutLastMore(now: int, events: seq<Event>, id: Id, k: nat)
    requires events != []
    ensures var n := |events| - 1;
            PutLast(now, events, id, k) <==>
              (k == n && Puts(After(now, events, n), events[n], id))
              || (PutLast(now, events[..n], id, k) && !Deletes(After(now, events, n), events[n], id))
  {
    hide Puts, Deletes, Step;
    var n := |events| - 1;
    var before := events[..n];
    assert forall j :: 0 <= j <= n ==> before[..j] == events[..j];
    if PutLast(now, before, id, k) && !Deletes(After(now, events, n), events[n], id) {
      forall j | k < j < |events|
        ensures !Deletes(After(now, events, j), events[j], id)
      {
        assert j < n ==> !Deletes(After(now, before, j), before[j], id);
      }
    }
    if PutLast(now, events, id, k) && k < n {
      forall j | k < j < n
        ensures !Deletes(After(now, before, j), before[j], id)
      {
        assert !Deletes(After(now, events, j), events[j], id);
      }
    }
  }

  /** A call of the request that leaves its object behind: the put, the settling read or the delete failed. */
  ghost predicate FailsAt(now: int, events: seq<Event>, r: Request, j: nat) {
    && j < |events| && CallBy(After(now, events, j), events[j], r)
    && var p := After(now, events, j).requests[r];
       (p.Putting? && events[j].call != Answered) || (p.Verifying? && events[j].call != Answered)
       || (p.Compensating? && events[j].call == NotApplied)
  }

  /** The settling read of the request found the row still pending, so the request kept the object. */
  ghost predicate KeepsAt(now: int, events: seq<Event>, r: Request, j: nat) {
    && j < |events| && CallBy(After(now, events, j), events[j], r)
    && var w := After(now, events, j);
       w.requests[r].Verifying? && Pending(w.store, w.requests[r].id)
  }

  ghost predicate DeletesAt(now: int, events: seq<Event>, r: Request, id: Id, j: nat) {
    j < |events| && CallBy(After(now, events, j), events[j], r) && Deletes(After(now, events, j), events[j], id)
  }

  /** The request has put its object and has not come to an end. */
  predicate Unfinished(p: Phase) {
    p.Marking? || p.Verifying? || p.Compensating?
  }

  /** Where a request can be once it has put the object of id at k. */
  ghost predicate Aftermath(now: int, events: seq<Event>, r: Request, id: Id, k: nat, n: nat) {
    && k < n <= |events|
    && var w := After(now, events, n);
       && r in w.requests && w.requests[r].id == id
       && var p := w.requests[r];
          || Unfinished(p) || Created(p) || (p.Done? && p.status == 204)
          || (p.Done? && Settled(now, events, r, id, k, n))
  }

  ghost predicate Settled(now: int, events: seq<Event>, r: Request, id: Id, k: nat, n: nat) {
    exists j: nat ::
      k <= j < n && (FailsAt(now, events, r, j) || KeepsAt(now, events, r, j) || DeletesAt(now, events, r, id, j))
  }

  lemma AftermathNext(now: int, events: seq<Event>, r: Request, id: Id, k: nat, n: nat)
    requires Aftermath(now, events, r, id, k, n) && n < |events|
    ensures Aftermath(now, events, r, id, k, n + 1)
  {
    hide Effect, Run, CanAllocate, Looked, Received;
    RunNext(Initial(now), events, n);
    var w, e := After(now, events, n), events[n];
    var p := w.requests[r];
    if CallBy(w, e, r) {
      if p.Verifying? {
        assert e.call != Answered ==> FailsAt(now, events, r, n);
        assert e.call == Answered && Pending(w.store, id) ==> KeepsAt(now, events, r, n);
      } else if p.Compensating? {
        assert e.call == NotApplied ==> FailsAt(now, events, r, n);
        assert e.call != NotApplied ==> DeletesAt(now, events, r, id, n);
      }
    }
  }

  lemma {:induction false} AftermathStays(now: int, events: seq<Event>, r: Request, id: Id, k: nat, n: nat)
    requires k < n <= |events| && events[k].Proceed? && events[k].request == r
    requires Puts(After(now, events, k), events[k], id)
    ensures Aftermath(now, events, r, id, k, n)
  {
    if n == k + 1 {
      hide Effect;
      RunNext(Initial(now), events, k);
      if events[k].call != Answered {
        assert FailsAt(now, events, r, k);
      }
    } else {
      AftermathStays(now, events, r, id, k, n - 1);
      AftermathNext(now, events, r, id, k, n - 1);
    }
  }

  /** Why the object of a request outlived its row. */
  ghost predicate Cause(now: int, events: seq<Event>, r: Request, k: nat) {
    var w := Run(Initial(now), events);
    || (r in w.requests && Unfinished(w.requests[r]))
    || exists j: nat :: k <= j < |events| && (FailsAt(now, events, r, j) || KeepsAt(now, events, r, j))
  }

  /**
    In every run, an object without an uploaded row was put by a request that either is unfinished, or
    had its put, its settling read or its compensating call fail, or ended while its row was pending: a
    request whose calls are all answered and that finds its row gone leaves nothing behind.
  */
  lemma OrphanCause(now: int, events: seq<Event>, id: Id)
    requires var w := Run(Initial(now), events);
             id in w.store.objects && !Uploaded(w.store, id)
    ensures exists k: nat, r ::
              && PutLast(now, events, id, k) && CallBy(After(now, events, k), events[k], r)
              && Cause(now, events, r, k)
  {
    hide Step, Effect, Next;
    var w := Run(Initial(now), events);
    ObjectIff(now, events, id);
    var k: nat :| PutLast(now, events, id, k);
    var r := events[k].request;
    AftermathStays(now, events, r, id, k, |events|);
    assert events[..|events|] == events;
    RunInvariant(now, events);
    assert Sound(w.store, w.used, w.requests[r]);
    assert PutLast(now, events, id, k) && CallBy(After(now, events, k), events[k], r);
    if !Unfinished(w.requests[r]) {
      var j: nat :| k <= j < |events|
        && (FailsAt(now, events, r, j) || KeepsAt(now, events, r, j) || DeletesAt(now, events, r, id, j));
      assert j > k ==> !DeletesAt(now, events, r, id, j);
    }
  }

  // ----- What a request is answered -----

  /** The first lookup goes on exactly for an uploaded row or one whose lease is live. */
  lemma LookedIff(store: Store, id: Id, cipherFound: bool, lookupNow: int, call: Call)
    ensures var p := Looked(store, id, cipherFound, lookupNow, call);
            && p.id == id
            && (p.Found? <==>
                  && call == Answered && cipherFound && id in store.rows
                  && (store.rows[id].uploaded || lookupNow < store.rows[id].updatedAt + 86_400_000))
            && (p.Found? ==> p.size == store.rows[id].size && p.uploaded == store.rows[id].uploaded)
            && (!p.Found? ==> p == Done(id, if call == Answered then 404 else 503, false))
  {
  }

  /** A body goes on exactly when it has the allocated size, within the limit. */
  lemma ReceivedIff(p: Phase, body: Body, at: int)
    requires p.Found?
    ensures var q := Received(p, body, at);
            && (q.Reserving? || q.Putting? <==> body == Bytes(p.size) && p.size <= 0x4000_0000)
            && (q.Reserving? ==> !p.uploaded && q == Reserving(p.id, p.size, at))
            && (q.Putting? ==> p.uploaded && q == Putting(p.id, p.size, at, false))
            && (q.Done? ==> q == Done(p.id, if body.Bytes? && body.size > 0x4000_0000 then 413 else 400, false))
  {
  }

  /** A call that fails ends its request with 503, except the mark, whose outcome the settling read decides. */
  lemma FailedCall(store: Store, p: Phase, call: Call)
    requires call != Answered && !p.Found? && !p.Done?
    ensures Next(store, p, call) == if p.Marking? then Verifying(p.id) else Done(p.id, 503, p.Auditing?)
  {
    hide CanReserve;
  }

  /**
    The answers of calls that succeed: 404 for a row that is gone and 413 for a lease that was refused;
    204 after the object of an uploaded row was written again, or the creation was recorded.
  */
  lemma AnswersIff(store: Store, p: Phase)
    ensures p.Rechecking? ==>
              Next(store, p, Answered) == if Uploaded(store, p.id) then Putting(p.id, p.size, p.at, false)
                                          else Done(p.id, if Pending(store, p.id) then 413 else 404, false)
    ensures p.Putting? ==>
              Next(store, p, Answered) == if p.transition then Marking(p.id, p.size, p.at) else Done(p.id, 204, false)
    ensures p.Auditing? ==> Next(store, p, Answered) == Done(p.id, 204, true)
    ensures p.Compensating? ==> Next(store, p, Answered) == Done(p.id, 503, false)
  {
  }

  /** An upload that is left alone and answered stores its object and is reported as created. */
  lemma UploadCompletes(w: World, r: Request, id: Id, lookupNow: int, at: int)
    requires r !in w.requests && Pending(w.store, id) && at <= w.now
    requires lookupNow < w.store.rows[id].updatedAt + PENDING_TTL_MS
    requires w.store.rows[id].size <= MAX_STORAGE_BYTES && CanReserve(w.store, id, w.store.rows[id].size, at)
    ensures var size := w.store.rows[id].size;
            var events := [Begin(r, id, true, lookupNow, Answered), Receive(r, Bytes(size), at), Proceed(r, Answered),
                           Proceed(r, Answered), Proceed(r, Answered), Proceed(r, Answered)];
            Run(w, events) == World(Store(w.store.rows[id := Row(size, true, at)], w.store.objects[id := size]),
                                    w.used, w.requests[r := Done(id, 204, true)], w.now)
  {
    hide Total, CanReserve, Run, Step;
    var size := w.store.rows[id].size;
    var events := [Begin(r, id, true, lookupNow, Answered), Receive(r, Bytes(size), at), Proceed(r, Answered),
                   Proceed(r, Answered), Proceed(r, Answered), Proceed(r, Answered)];
    RunNone(w);
    assert events[..0] == [] && events[..6] == events;
    RunNext(w, events, 0);
    RunNext(w, events, 1);
    RunNext(w, events, 2);
    RunNext(w, events, 3);
    RunNext(w, events, 4);
    RunNext(w, events, 5);
    LookedAndReserved(w, r, id, lookupNow, at);
    PutAndMarked(Run(w, events[..3]), r, id, size, at);
  }

  /** The first three steps: the row is found, and its lease renewed. */
  lemma LookedAndReserved(w: World, r: Request, id: Id, lookupNow: int, at: int)
    requires r !in w.requests && Pending(w.store, id) && at <= w.now
    requires lookupNow < w.store.rows[id].updatedAt + PENDING_TTL_MS
    requires w.store.rows[id].size <= MAX_STORAGE_BYTES && CanReserve(w.store, id, w.store.rows[id].size, at)
    ensures var size := w.store.rows[id].size;
            var received := Step(Step(w, Begin(r, id, true, lookupNow, Answered)), Receive(r, Bytes(size), at));
            Step(received, Proceed(r, Answered))
            == World(Store(w.store.rows[id := Row(size, false, at)], w.store.objects), w.used,
                     w.requests[r := Putting(id, size, at, true)], w.now)
  {
    hide Total, CanReserve;
    var size := w.store.rows[id].size;
    var found := Step(w, Begin(r, id, true, lookupNow, Answered));
    assert found == w.(requests := w.requests[r := Found(id, size, false)]);
    var received := Step(found, Receive(r, Bytes(size), at));
    assert received == w.(requests := w.requests[r := Reserving(id, size, at)]);
  }

  /** The last three: the object is put, the row marked, and the creation recorded. */
  lemma PutAndMarked(w: World, r: Request, id: Id, size: nat, at: int)
    requires r in w.requests && w.requests[r] == Putting(id, size, at, true)
    requires Pending(w.store, id) && w.store.rows[id].size == size
    ensures Step(Step(Step(w, Proceed(r, Answered)), Proceed(r, Answered)), Proceed(r, Answered))
         == World(Store(w.store.rows[id := Row(size, true, at)], w.store.objects[id := size]), w.used,
                  w.requests[r := Done(id, 204, true)], w.now)
  {
    hide Total, CanReserve;
    var stored := Step(w, Proceed(r, Answered));
    assert stored == World(Store(w.store.rows, w.store.objects[id := size]), w.used,
                           w.requests[r := Marking(id, size, at)], w.now);
    var marked := Step(stored, Proceed(r, Answered));
    assert marked.requests == w.requests[r := Auditing(id)];
  }

  lemma RunNone(w: World)
    ensures Run(w, []) == w
  {
  }

  // ----- The storage limit -----

  /** An allocation is admitted exactly when the limit holds with its row in the table. */
  lemma AllocateIff(store: Store, id: Id, size: nat, at: int)
    requires id !in store.rows
    ensures CanAllocate(store, size, at)
       <==> Total(store.rows[id := Row(size, false, at)], at - PENDING_TTL_MS) <= MAX_STORAGE_BYTES
  {
    TotalUpdate(store.rows, at - PENDING_TTL_MS, id, Row(size, false, at));
    assert store.rows - {id} == store.rows;
  }

  /** A live lease is renewed exactly when the limit holds with the row at its new date. */
  lemma ReserveIff(store: Store, id: Id, at: int)
    requires Pending(store, id)
    ensures CanReserve(store, id, store.rows[id].size, at) <==>
              && at < store.rows[id].updatedAt + 86_400_000
              && Total(store.rows[id := store.rows[id].(updatedAt := at)], at - PENDING_TTL_MS) <= MAX_STORAGE_BYTES
  {
    TotalUpdate(store.rows, at - PENDING_TTL_MS, id, store.rows[id].(updatedAt := at));
  }

  /** The bytes that count against the limit now. */
  ghost function Held(w: World): nat {
    Total(w.store.rows, w.now - PENDING_TTL_MS)
  }

  ghost predicate Within(w: World) {
    Held(w) <= MAX_STORAGE_BYTES
  }

  lemma {:induction false} TotalWithout(rows: map<Id, Row>, cutoff: int, id: Id)
    requires id in rows
    ensures Total(rows, cutoff) == Weight(rows[id], cutoff) + Total(rows - {id}, cutoff)
    decreases |rows|
  {
    var k :| k in rows && Total(rows, cutoff) == Weight(rows[k], cutoff) + Total(rows - {k}, cutoff);
    if k != id {
      TotalWithout(rows - {k}, cutoff, id);
      TotalWithout(rows - {id}, cutoff, k);
      assert rows - {k} - {id} == rows - {id} - {k};
    }
  }

  lemma TotalUpdate(rows: map<Id, Row>, cutoff: int, id: Id, row: Row)
    ensures Total(rows[id := row], cutoff) == Weight(row, cutoff) + Total(rows - {id}, cutoff)
  {
    TotalWithout(rows[id := row], cutoff, id);
    assert rows[id := row] - {id} == rows - {id};
  }

  lemma TotalEmpty(cutoff: int)
    ensures Total(map[], cutoff) == 0
  {
  }

  /** A later cutoff, or fewer rows, never count more. */
  lemma {:induction false} TotalMonotone(rows: map<Id, Row>, cutoff: int, later: int, gone: set<Id>)
    requires cutoff <= later
    ensures Total(rows - gone, later) <= Total(rows, cutoff)
    decreases |rows|
  {
    hide Total;
    if rows == map[] {
      assert rows - gone == rows;
      TotalEmpty(cutoff);
      TotalEmpty(later);
    } else {
      var id :| id in rows;
      TotalWithout(rows, cutoff, id);
      TotalMonotone(rows - {id}, cutoff, later, gone);
      assert rows - {id} - gone == rows - gone - {id};
      if id in gone {
        assert rows - gone - {id} == rows - gone;
      } else {
        TotalWithout(rows - gone, later, id);
      }
    }
  }

  /** A mark that takes effect fits: its lease is still live, or its bytes still find room. */
  ghost predicate MarkFits(w: World, e: Event) {
    e.Proceed? && e.request in w.requests && w.requests[e.request].Marking? && !e.call.NotApplied?
    && Pending(w.store, w.requests[e.request].id) ==>
      var row := w.store.rows[w.requests[e.request].id];
      row.updatedAt > w.now - PENDING_TTL_MS || row.size + Held(w) <= MAX_STORAGE_BYTES
  }

  /** Reservations are dated by clocks that have been read that far. */
  ghost predicate Dated(w: World) {
    forall r :: r in w.requests && w.requests[r].Reserving? ==> w.requests[r].at <= w.now
  }

  lemma StepDated(w: World, e: Event)
    requires Dated(w)
    ensures Dated(Step(w, e))
  {
    hide Total, CanReserve, CanAllocate, Effect;
  }

  lemma ReserveWithin(w: World, id: Id, size: nat, at: int)
    requires Within(w) && at <= w.now && CanReserve(w.store, id, size, at) && w.store.rows[id].size == size
    ensures Total(w.store.rows[id := w.store.rows[id].(updatedAt := at)], w.now - PENDING_TTL_MS) <= MAX_STORAGE_BYTES
  {
    var rows := w.store.rows;
    TotalUpdate(rows, w.now - PENDING_TTL_MS, id, rows[id].(updatedAt := at));
    TotalMonotone(rows - {id}, at - PENDING_TTL_MS, w.now - PENDING_TTL_MS, {});
    assert rows - {id} - {} == rows - {id};
  }

  lemma AllocateWithin(w: World, id: Id, size: nat, at: int)
    requires Within(w) && at <= w.now && CanAllocate(w.store, size, at) && id !in w.store.rows
    ensures Total(w.store.rows[id := Row(size, false, at)], w.now - PENDING_TTL_MS) <= MAX_STORAGE_BYTES
  {
    var rows := w.store.rows;
    TotalUpdate(rows, w.now - PENDING_TTL_MS, id, Row(size, false, at));
    assert rows - {id} == rows && rows - {} == rows;
    TotalMonotone(rows, at - PENDING_TTL_MS, w.now - PENDING_TTL_MS, {});
  }

  /** Marking adds the row's bytes exactly when its lease had run out. */
  lemma MarkHeld(rows: map<Id, Row>, cutoff: int, id: Id, at: int)
    requires id in rows && !rows[id].uploaded
    ensures Total(rows[id := Row(rows[id].size, true, at)], cutoff)
         == Total(rows, cutoff) + if rows[id].updatedAt > cutoff then 0 else rows[id].size
  {
    TotalWithout(rows, cutoff, id);
    TotalUpdate(rows, cutoff, id, Row(rows[id].size, true, at));
  }

  /** A step keeps the storage limit exactly when it is not a mark that no longer fits. */
  lemma StepWithin(w: World, e: Event)
    requires Invariant(w) && Dated(w) && Within(w)
    ensures Within(Step(w, e)) <==> MarkFits(w, e)
  {
    var rows, cutoff := w.store.rows, w.now - PENDING_TTL_MS;
    match e
    case Tick(passed) =>
      assert rows - {} == rows;
      TotalMonotone(rows, cutoff, cutoff + passed, {});
    case Allocate(id, size, at) =>
      if id !in w.used && at <= w.now && CanAllocate(w.store, size, at) {
        AllocateWithin(w, id, size, at);
      }
    case RemovePending(gone) =>
      TotalMonotone(rows, cutoff, cutoff, PendingAmong(w.store, gone));
    case Begin(_, _, _, _, _) =>
    case Receive(_, _, _) =>
    case Proceed(r, call) =>
      if r in w.requests {
        ProceedWithin(w, r, call);
      }
  }

  lemma ProceedWithin(w: World, r: Request, call: Call)
    requires Invariant(w) && Dated(w) && Within(w) && r in w.requests
    ensures Total(Effect(w.store, w.requests[r], call).rows, w.now - PENDING_TTL_MS) <= MAX_STORAGE_BYTES
       <==> MarkFits(w, Proceed(r, call))
  {
    var p := w.requests[r];
    if p.Reserving? && CanReserve(w.store, p.id, p.size, p.at) {
      ReserveWithin(w, p.id, p.size, p.at);
    } else if p.Marking? && Pending(w.store, p.id) {
      MarkHeld(w.store.rows, w.now - PENDING_TTL_MS, p.id, p.at);
    }
  }

  ghost predicate AlwaysWithin(now: int, events: seq<Event>) {
    forall k :: 0 <= k <= |events| ==> Within(Run(Initial(now), events[..k]))
  }

  ghost predicate MarksFit(now: int, events: seq<Event>) {
    forall k :: 0 <= k < |events| ==> MarkFits(Run(Initial(now), events[..k]), events[k])
  }

  lemma {:induction false} RunDated(now: int, events: seq<Event>)
    ensures Dated(Run(Initial(now), events))
  {
    if events == [] {
    } else {
      RunDated(now, events[..|events| - 1]);
      StepDated(Run(Initial(now), events[..|events| - 1]), events[|events| - 1]);
    }
  }

  /**
    The storage limit holds throughout a run exactly when every mark of it fits: the uploading
    statement checks neither the lease nor the limit.
  */
  lemma {:induction false} LimitIff(now: int, events: seq<Event>)
    ensures AlwaysWithin(now, events) <==> MarksFit(now, events)
  {
    hide Total, Within, MarkFits, Invariant, Dated, Step, CanReserve, CanAllocate, Effect, Next;
    if events == [] {
      NothingHeld(now);
      assert forall k :: 0 <= k <= |events| ==> events[..k] == [];
    } else {
      var n := |events| - 1;
      var before := events[..n];
      assert forall k :: 0 <= k <= n ==> before[..k] == events[..k];
      LimitIff(now, before);
      assert events[..n + 1] == events;
      RunInvariant(now, before);
      RunDated(now, before);
      if Within(Run(Initial(now), before)) {
        StepWithin(Run(Initial(now), before), events[n]);
      }
      assert Run(Initial(now), events) == Step(Run(Initial(now), before), events[n]);
    }
  }

  lemma NothingHeld(now: int)
    ensures Within(Initial(now))
  {
    TotalEmpty(now - PENDING_TTL_MS);
  }

  /** A put that outlasts its lease: the limit's bytes are promised again, then both are held. */
  const SLOW_UPLOAD := [
    Allocate(0, MAX_STORAGE_BYTES, 0), Begin(0, 0, true, 0, Answered), Receive(0, Bytes(MAX_STORAGE_BYTES), 0),
    Proceed(0, Answered), Tick(PENDING_TTL_MS), Allocate(1, MAX_STORAGE_BYTES, PENDING_TTL_MS),
    Proceed(0, Answered), Proceed(0, Answered)]

  lemma RunNext(w: World, events: seq<Event>, k: nat)
    requires k < |events|
    ensures Run(w, events[..k + 1]) == Step(Run(w, events[..k]), events[k])
  {
    assert events[..k + 1][..k] == events[..k];
  }

  lemma SlowReservation()
    ensures var w := Run(Initial(0), SLOW_UPLOAD[..3]);
            w == World(Store(map[0 := Row(MAX_STORAGE_BYTES, false, 0)], map[]), {0},
                       map[0 := Reserving(0, MAX_STORAGE_BYTES, 0)], 0)
  {
    TotalEmpty(-PENDING_TTL_MS);
    RunNext(Initial(0), SLOW_UPLOAD, 0);
    RunNext(Initial(0), SLOW_UPLOAD, 1);
    RunNext(Initial(0), SLOW_UPLOAD, 2);
  }

  lemma SlowPut()
    ensures var w := Run(Initial(0), SLOW_UPLOAD[..5]);
            w == World(Store(map[0 := Row(MAX_STORAGE_BYTES, false, 0)], map[]), {0},
                       map[0 := Putting(0, MAX_STORAGE_BYTES, 0, true)], PENDING_TTL_MS)
  {
    SlowReservation();
    TotalEmpty(-PENDING_TTL_MS);
    assert map[0 := Row(MAX_STORAGE_BYTES, false, 0)] - {0} == map[];
    RunNext(Initial(0), SLOW_UPLOAD, 3);
    RunNext(Initial(0), SLOW_UPLOAD, 4);
  }

  /** The expired reservation no longer counts, so its bytes are allocated again. */
  lemma SlowAgain()
    ensures var w := Run(Initial(0), SLOW_UPLOAD[..6]);
            w == World(Store(map[0 := Row(MAX_STORAGE_BYTES, false, 0),
                                 1 := Row(MAX_STORAGE_BYTES, false, PENDING_TTL_MS)], map[]), {0, 1},
                       map[0 := Putting(0, MAX_STORAGE_BYTES, 0, true)], PENDING_TTL_MS)
  {
    SlowPut();
    var first := map[0 := Row(MAX_STORAGE_BYTES, false, 0)];
    assert first - {0} == map[];
    TotalEmpty(0);
    TotalWithout(first, 0, 0);
    RunNext(Initial(0), SLOW_UPLOAD, 5);
  }

  lemma SlowMark()
    ensures Run(Initial(0), SLOW_UPLOAD).store.rows
         == map[0 := Row(MAX_STORAGE_BYTES, true, 0), 1 := Row(MAX_STORAGE_BYTES, false, PENDING_TTL_MS)]
    ensures Run(Initial(0), SLOW_UPLOAD).now == PENDING_TTL_MS
  {
    hide Total;
    SlowAgain();
    RunNext(Initial(0), SLOW_UPLOAD, 6);
    RunNext(Initial(0), SLOW_UPLOAD, 7);
    assert SLOW_UPLOAD[..8] == SLOW_UPLOAD;
  }

  lemma LimitExceeded()
    ensures Held(Run(Initial(0), SLOW_UPLOAD)) == 2 * MAX_STORAGE_BYTES
  {
    SlowMark();
    var last := Run(Initial(0), SLOW_UPLOAD).store.rows;
    TotalWithout(last, 0, 0);
    TotalWithout(last - {0}, 0, 1);
    assert last - {0} - {1} == map[];
    TotalEmpty(0);
  }
}

/**
  Company settings and test mails (src/company-settings.ts, src/company-test-mail.ts): what one
  update or one claim does to the tables, and what holds over every run of them. That the caller is
  a confirmed owner is given with each request. CompanyBatch.dfy runs the statements themselves.
*/
module Company {
  import opened Options
  import opened Sets

  type Org = nat
  type User = nat
  /** Revisions and audit ids are fresh random identifiers. */
  type Id = nat

  const COOLDOWN_MS := 300_000

  datatype Input = Input(
    name: string, domain: Option<string>, count: Option<nat>, recipient: Option<string>, revision: Option<Id>)

  datatype Settings = Settings(
    domain: Option<string>, count: Option<nat>, recipient: Option<string>, revision: Id, updatedAt: int)

  datatype Organization = Organization(name: string, updatedAt: int, revisionDate: int)

  datatype AuditName = SettingsUpdate | MailTest

  datatype Audit = Audit(name: AuditName, request: string, at: int, actor: User, org: Org)

  /** The tables; vault holds each user's newest folder or cipher date. */
  datatype Db = Db(
    orgs: map<Org, Organization>,
    settings: map<Org, Settings>,
    audits: map<Id, Audit>,
    users: map<User, int>,
    vault: map<User, int>,
    members: map<Org, set<User>>,
    used: set<Id>)

  datatype UpdateRequest = UpdateRequest(
    org: Org, actor: User, owner: bool, input: Input, now: int, request: string, revision: Id)

  datatype TestRequest = TestRequest(
    org: Org, actor: User, owner: bool, revision: Id, now: int, request: string, id: Id)

  // ----- One update -----

  /** The saved revision; an organization without a settings row has none. */
  function RevisionOf(db: Db, org: Org): Option<Id> {
    if org in db.settings then Some(db.settings[org].revision) else None
  }

  /** The caller owns the organization and has seen its latest settings. */
  predicate Wins(db: Db, u: UpdateRequest) {
    u.owner && u.org in db.orgs && RevisionOf(db, u.org) == u.input.revision
  }

  function SettingsOf(u: UpdateRequest): Settings {
    Settings(u.input.domain, u.input.count, u.input.recipient, u.revision, u.now)
  }

  function Later(a: int, b: int): int {
    if a < b then b else a
  }

  function Renamed(o: Organization, u: UpdateRequest): Organization {
    Organization(u.input.name, u.now, Later(o.revisionDate, u.now) + 1)
  }

  predicate Member(db: Db, org: Org, user: User) {
    org in db.members && user in db.members[org]
  }

  /** The dates that a member's new revision date has to pass. */
  function DatesOf(db: Db, user: User, now: int): (dates: set<int>)
    requires user in db.users
    ensures db.users[user] in dates && now in dates
  {
    {db.users[user], now}
    + (if user in db.vault then {db.vault[user]} else {})
    + (set o | o in db.orgs && Member(db, o, user) :: db.orgs[o].revisionDate)
  }

  function Dated(db: Db, org: Org, now: int): map<User, int> {
    map user | user in db.users ::
      if Member(db, org, user) then Largest(DatesOf(db, user, now), now) + 1 else db.users[user]
  }

  /** Everything a successful update writes. */
  function Updated(db: Db, u: UpdateRequest): Db
    requires u.org in db.orgs
  {
    var written := db.(settings := db.settings[u.org := SettingsOf(u)],
                       orgs := db.orgs[u.org := Renamed(db.orgs[u.org], u)],
                       audits := db.audits[u.revision := Audit(SettingsUpdate, u.request, u.now, u.actor, u.org)]);
    written.(users := Dated(written, u.org, u.now))
  }

  // ----- One claim -----

  predicate Shares(a: Audit, org: Org, actor: User) {
    a.actor == actor || a.org == org
  }

  /** A test mail asked for too recently by the same actor or for the same organization. */
  predicate Recent(db: Db, t: TestRequest, id: Id) {
    && id in db.audits && db.audits[id].name.MailTest?
    && db.audits[id].at > t.now - COOLDOWN_MS && Shares(db.audits[id], t.org, t.actor)
  }

  predicate Claims(db: Db, t: TestRequest) {
    && t.owner && RevisionOf(db, t.org) == Some(t.revision) && db.settings[t.org].recipient.Some?
    && forall id :: id in db.audits ==> !Recent(db, t, id)
  }

  function Claimed(db: Db, t: TestRequest): Db {
    db.(audits := db.audits[t.id := Audit(MailTest, t.request, t.now, t.actor, t.org)])
  }

  // ----- Runs -----

  datatype Event =
    | Update(u: UpdateRequest)
    | TestMail(t: TestRequest)
    | Retain(cutoff: int, gone: set<Id>)
    | Touch(org: Org, updatedAt: int, revisionDate: int)
    | SetMembers(org: Org, users: set<User>)
    | VaultChange(user: User, date: int)

  /** What a retention cleanup leaves: it deletes some of the rows dated before its cutoff. */
  function Retained(audits: map<Id, Audit>, cutoff: int, gone: set<Id>): map<Id, Audit> {
    map id | id in audits && !(id in gone && audits[id].at < cutoff) :: audits[id]
  }

  /**
    One batch, one claim, one cleanup, or a change elsewhere, such as the writes of policies, groups
    and memberships that date an organization anew; an identifier is never drawn twice.
  */
  function Step(db: Db, e: Event): Db {
    match e
    case Update(u) =>
      if u.revision in db.used then db
      else
        var next := if Wins(db, u) then Updated(db, u) else db;
        next.(used := db.used + {u.revision})
    case TestMail(t) =>
      if t.id in db.used then db
      else
        var next := if Claims(db, t) then Claimed(db, t) else db;
        next.(used := db.used + {t.id})
    case Retain(cutoff, gone) => db.(audits := Retained(db.audits, cutoff, gone))
    case Touch(org, updatedAt, revisionDate) =>
      if org !in db.orgs then db
      else db.(orgs := db.orgs[org := Organization(db.orgs[org].name, updatedAt, revisionDate)])
    case SetMembers(org, users) => db.(members := db.members[org := users])
    case VaultChange(user, date) => db.(vault := db.vault[user := date])
  }

  function Run(db: Db, events: seq<Event>): Db {
    if events == [] then db else Step(Run(db, events[..|events| - 1]), events[|events| - 1])
  }

  /** Identifiers in the tables have been drawn. */
  ghost predicate Consistent(db: Db) {
    && db.audits.Keys <= db.used
    && (forall o :: o in db.settings ==> db.settings[o].revision in db.used)
  }

  lemma StepConsistent(db: Db, e: Event)
    requires Consistent(db)
    ensures Consistent(Step(db, e)) && db.used <= Step(db, e).used
  {
    hide Dated, Wins, Claims;
  }

  lemma {:induction false} RunConsistent(db: Db, events: seq<Event>)
    requires Consistent(db)
    ensures Consistent(Run(db, events)) && db.used <= Run(db, events).used
  {
    hide Step, Consistent;
    if events == [] {
    } else {
      RunConsistent(db, events[..|events| - 1]);
      StepConsistent(Run(db, events[..|events| - 1]), events[|events| - 1]);
    }
  }

  // ----- Settings: one linear chain of revisions -----

  predicate Succeeds(db: Db, e: Event, org: Org) {
    e.Update? && e.u.org == org && e.u.revision !in db.used && Wins(db, e.u)
  }

  /** The successful updates of an organization, in the order of their batches. */
  function Successes(db: Db, events: seq<Event>, org: Org): seq<UpdateRequest> {
    if events == [] then []
    else
      var before := events[..|events| - 1];
      var last := events[|events| - 1];
      Successes(db, before, org) + if Succeeds(Run(db, before), last, org) then [last.u] else []
  }

  /** Each update consumes the revision that the one before it produced. */
  ghost predicate Linear(first: Option<Id>, chain: seq<UpdateRequest>) {
    && (chain != [] ==> chain[0].input.revision == first)
    && (forall i, j :: 0 <= i < |chain| && j == i + 1 < |chain| ==>
          chain[j].input.revision == Some(chain[i].revision))
  }

  ghost predicate Fresh(used: set<Id>, chain: seq<UpdateRequest>) {
    && (forall i :: 0 <= i < |chain| ==> chain[i].revision !in used)
    && (forall i, j :: 0 <= i < j < |chain| ==> chain[i].revision != chain[j].revision)
  }

  function Produced(first: Option<Id>, chain: seq<UpdateRequest>): Option<Id> {
    if chain == [] then first else Some(chain[|chain| - 1].revision)
  }

  /** The row, the name and the revision saved for an organization after its updates. */
  ghost predicate SavedBy(start: Db, db: Db, chain: seq<UpdateRequest>, org: Org) {
    if chain == [] then
      && (org in db.settings <==> org in start.settings)
      && (org in db.settings ==> db.settings[org] == start.settings[org])
      && (org in db.orgs <==> org in start.orgs)
      && (org in db.orgs ==> db.orgs[org].name == start.orgs[org].name)
    else
      var last := chain[|chain| - 1];
      && org in db.settings
      && db.settings[org]
         == Settings(last.input.domain, last.input.count, last.input.recipient, last.revision, last.now)
      && org in db.orgs && db.orgs[org].name == last.input.name
  }

  /** The latest settings as the caller has seen them: those of a revision, or that there are none. */
  ghost predicate Latest(db: Db, org: Org, seen: Option<Id>) {
    match seen
    case None => org !in db.settings
    case Some(revision) => org in db.settings && db.settings[org].revision == revision
  }

  /**
    Who succeeds: exactly an owner of an existing organization who has seen its latest settings; then
    the fresh revision is saved, and otherwise it is not.
  */
  lemma UpdateIff(db: Db, u: UpdateRequest)
    requires Consistent(db) && u.revision !in db.used
    ensures var allowed := u.owner && u.org in db.orgs && Latest(db, u.org, u.input.revision);
            && (Succeeds(db, Update(u), u.org) <==> allowed)
            && (Latest(Step(db, Update(u)), u.org, Some(u.revision)) <==> allowed)
            && (!allowed ==> Step(db, Update(u)) == db.(used := db.used + {u.revision}))
  {
    hide Dated;
  }

  lemma StepSaved(start: Db, db: Db, chain: seq<UpdateRequest>, org: Org, e: Event)
    requires SavedBy(start, db, chain, org)
    ensures SavedBy(start, Step(db, e), chain + (if Succeeds(db, e, org) then [e.u] else []), org)
  {
    hide Dated, Claims;
    if !Succeeds(db, e, org) {
      assert chain + [] == chain;
    }
  }

  lemma LinearMore(first: Option<Id>, used: set<Id>, chain: seq<UpdateRequest>, u: UpdateRequest)
    requires Linear(first, chain) && u.input.revision == Produced(first, chain)
    requires Fresh(used, chain) && u.revision !in used
    requires forall i :: 0 <= i < |chain| ==> chain[i].revision != u.revision
    ensures Linear(first, chain + [u]) && Fresh(used, chain + [u])
  {
  }

  /**
    No update is lost: an organization's successful updates form one chain of revisions, none
    produced twice; and the settings row, its revision and the organization's name are those of the
    last of them.
  */
  lemma {:induction false} NoLostUpdates(db: Db, events: seq<Event>, org: Org)
    requires Consistent(db)
    ensures var chain := Successes(db, events, org);
            && Linear(RevisionOf(db, org), chain)
            && Fresh(db.used, chain)
            && (forall i :: 0 <= i < |chain| ==> chain[i].revision in Run(db, events).used)
            && SavedBy(db, Run(db, events), chain, org)
            && RevisionOf(Run(db, events), org) == Produced(RevisionOf(db, org), chain)
  {
    hide Step, Updated, Consistent, Claims, Claimed;
    if events == [] {
    } else {
      var before := events[..|events| - 1];
      var last := events[|events| - 1];
      NoLostUpdates(db, before, org);
      RunConsistent(db, before);
      StepSaved(db, Run(db, before), Successes(db, before, org), org, last);
      StepUsed(Run(db, before), last);
      if Succeeds(Run(db, before), last, org) {
        LinearMore(RevisionOf(db, org), db.used, Successes(db, before, org), last.u);
      }
    }
  }

  lemma StepUsed(db: Db, e: Event)
    ensures db.used <= Step(db, e).used
    ensures e.Update? ==> e.u.revision in Step(db, e).used
  {
    hide Dated, Wins, Claims;
  }

  /** No revision is consumed by two updates, so of racing updates at most one succeeds. */
  lemma ConsumedOnce(db: Db, events: seq<Event>, org: Org, i: nat, j: nat)
    requires Consistent(db) && i < j < |Successes(db, events, org)|
    ensures Successes(db, events, org)[i].input.revision != Successes(db, events, org)[j].input.revision
  {
    NoLostUpdates(db, events, org);
    var chain := Successes(db, events, org);
    assert chain[j].input.revision == Some(chain[j - 1].revision);
    assert i > 0 ==> chain[i].input.revision == Some(chain[i - 1].revision);
  }

  // ----- Audit rows, and what retention takes away -----

  /** Every audit row that was there at the start or has been written since, deleted or not. */
  function Recorded(db: Db, events: seq<Event>): map<Id, Audit> {
    if events == [] then db.audits else Recorded(db, events[..|events| - 1]) + Run(db, events).audits
  }

  /** The rows of a table are those of a record, apart from some that are missing. */
  ghost predicate Within(audits: map<Id, Audit>, record: map<Id, Audit>) {
    forall id :: id in audits ==> id in record && record[id] == audits[id]
  }

  /** A row of the table after an event was there, or is the one that the event wrote. */
  lemma StepRow(db: Db, e: Event, id: Id)
    requires Consistent(db) && id in Step(db, e).audits
    ensures || (id in db.audits && Step(db, e).audits[id] == db.audits[id])
            || (e.Update? && Succeeds(db, e, e.u.org) && id == e.u.revision)
            || (IsClaim(db, e) && id == e.t.id)
  {
    hide Dated, Wins, Claims;
  }

  lemma StepWithin(db: Db, e: Event, record: map<Id, Audit>)
    requires Consistent(db) && Within(db.audits, record) && record.Keys <= db.used
    ensures var more := record + Step(db, e).audits;
            && Within(record, more) && Within(Step(db, e).audits, more) && more.Keys <= Step(db, e).used
    ensures forall id :: id in db.audits && id !in Step(db, e).audits ==> e.Retain? && db.audits[id].at < e.cutoff
  {
    hide Step, Wins, Claims;
    StepConsistent(db, e);
    StepLoses(db, e);
    forall id | id in Step(db, e).audits
      ensures id in record ==> record[id] == Step(db, e).audits[id]
    {
      StepRow(db, e, id);
    }
  }

  lemma StepLoses(db: Db, e: Event)
    ensures forall id :: id in db.audits && id !in Step(db, e).audits ==> e.Retain? && db.audits[id].at < e.cutoff
  {
    hide Dated, Wins, Claims;
  }

  /** A cleanup of the run deletes rows of this date. */
  ghost predicate Cleaned(events: seq<Event>, at: int) {
    exists k :: 0 <= k < |events| && events[k].Retain? && at < events[k].cutoff
  }

  /** The table holds what was recorded, except for rows dated before the cutoff of some cleanup. */
  lemma {:induction false} RetentionTakesOldRows(db: Db, events: seq<Event>)
    requires Consistent(db)
    ensures Within(Run(db, events).audits, Recorded(db, events)) && Recorded(db, events).Keys <= Run(db, events).used
    ensures forall id :: id in Recorded(db, events) && id !in Run(db, events).audits ==>
              Cleaned(events, Recorded(db, events)[id].at)
  {
    hide Step, Consistent;
    if events == [] {
      assert Consistent(db) ==> db.audits.Keys <= db.used by { ConsistentUsed(db); }
    } else {
      var n := |events| - 1;
      var before := events[..n];
      RetentionTakesOldRows(db, before);
      RunConsistent(db, before);
      StepWithin(Run(db, before), events[n], Recorded(db, before));
      forall id | id in Recorded(db, events) && id !in Run(db, events).audits
        ensures Cleaned(events, Recorded(db, events)[id].at)
      {
        if id in Run(db, before).audits {
          assert events[n].Retain?;
        } else {
          var k :| 0 <= k < n && before[k].Retain? && Recorded(db, before)[id].at < before[k].cutoff;
          assert events[k] == before[k];
        }
      }
    }
  }

  lemma ConsistentUsed(db: Db)
    requires Consistent(db)
    ensures db.audits.Keys <= db.used
  {
  }

  /** The rows that record an organization's settings updates. */
  function UpdateAudits(audits: map<Id, Audit>, org: Org): set<Id> {
    set id | id in audits && audits[id].name.SettingsUpdate? && audits[id].org == org
  }

  ghost function Revisions(chain: seq<UpdateRequest>): set<Id> {
    set i | 0 <= i < |chain| :: chain[i].revision
  }

  lemma StepAudits(db: Db, e: Event, record: map<Id, Audit>, org: Org)
    requires Consistent(db) && Within(db.audits, record) && record.Keys <= db.used
    ensures UpdateAudits(record + Step(db, e).audits, org)
         == UpdateAudits(record, org) + if Succeeds(db, e, org) then {e.u.revision} else {}
    ensures Succeeds(db, e, org) ==> e.u.revision !in record
  {
    hide Step, Claims, Wins;
    var more := record + Step(db, e).audits;
    forall id | id in more
      ensures id in record || IsClaim(db, e) || (e.Update? && Succeeds(db, e, e.u.org) && id == e.u.revision)
      ensures id in record ==> more[id] == record[id]
    {
      if id in Step(db, e).audits {
        StepRow(db, e, id);
      }
    }
    if e.Update? && Succeeds(db, e, e.u.org) {
      AuditWritten(db, e, e.u.org);
    }
    if IsClaim(db, e) {
      ClaimWritten(db, e);
    }
  }

  lemma ClaimWritten(db: Db, e: Event)
    requires IsClaim(db, e)
    ensures Step(db, e).audits == db.audits[e.t.id := AuditOf(e.t)]
  {
  }

  /**
    Audit rows equal successes: what was ever recorded is the rows of the start and one for each
    successful update.
  */
  lemma {:induction false} AuditsAreSuccesses(db: Db, events: seq<Event>, org: Org)
    requires Consistent(db)
    ensures var chain := Successes(db, events, org);
            && UpdateAudits(Recorded(db, events), org) == UpdateAudits(db.audits, org) + Revisions(chain)
            && |UpdateAudits(Recorded(db, events), org)| == |UpdateAudits(db.audits, org)| + |chain|
  {
    hide Step, Consistent, Wins, UpdateAudits, Revisions;
    if events == [] {
      NoRevisions();
    } else {
      var before := events[..|events| - 1];
      var last := events[|events| - 1];
      AuditsAreSuccesses(db, before, org);
      RunConsistent(db, before);
      RetentionTakesOldRows(db, before);
      StepAudits(Run(db, before), last, Recorded(db, before), org);
      if Succeeds(Run(db, before), last, org) {
        var chain := Successes(db, before, org);
        RevisionsMore(chain, last.u);
        Gather(UpdateAudits(db.audits, org), Revisions(chain), last.u.revision);
        AuditsListed(Recorded(db, before), org);
      } else {
        assert Successes(db, events, org) == Successes(db, before, org);
      }
    }
  }

  lemma NoRevisions()
    ensures Revisions([]) == {}
  {
  }

  lemma AuditsListed(audits: map<Id, Audit>, org: Org)
    ensures UpdateAudits(audits, org) <= audits.Keys
  {
  }

  /** Each success is recorded with its own revision, actor, time and request. */
  lemma {:induction false} AuditNamesItsUpdate(db: Db, events: seq<Event>, org: Org, i: nat)
    requires Consistent(db) && i < |Successes(db, events, org)|
    ensures var u := Successes(db, events, org)[i];
            && u.revision in Recorded(db, events)
            && Recorded(db, events)[u.revision] == Audit(SettingsUpdate, u.request, u.now, u.actor, org)
  {
    hide Step, Consistent, Wins;
    var before := events[..|events| - 1];
    var last := events[|events| - 1];
    RunConsistent(db, before);
    RetentionTakesOldRows(db, before);
    if i < |Successes(db, before, org)| {
      AuditNamesItsUpdate(db, before, org, i);
      StepWithin(Run(db, before), last, Recorded(db, before));
    } else {
      AuditWritten(Run(db, before), last, org);
    }
  }

  lemma AuditWritten(db: Db, e: Event, org: Org)
    requires Succeeds(db, e, org)
    ensures e.u.revision in Step(db, e).audits
    ensures Step(db, e).audits[e.u.revision] == Audit(SettingsUpdate, e.u.request, e.u.now, e.u.actor, org)
  {
    hide Dated;
  }

  lemma RevisionsMore(chain: seq<UpdateRequest>, u: UpdateRequest)
    ensures Revisions(chain + [u]) == Revisions(chain) + {u.revision}
  {
    var more := chain + [u];
    forall id | id in Revisions(chain) + {u.revision}
      ensures id in Revisions(more)
    {
      if id == u.revision {
        assert more[|chain|].revision == id;
      } else {
        var i :| 0 <= i < |chain| && chain[i].revision == id;
        assert more[i].revision == id;
      }
    }
  }

  // ----- Failures leave no trace -----

  /** An update that does not succeed, or a test mail that is not claimed. */
  predicate Fails(db: Db, e: Event) {
    match e
    case Update(u) => !Succeeds(db, e, u.org)
    case TestMail(t) => t.id in db.used || !Claims(db, t)
    case _ => false
  }

  /** A run without its failing requests. */
  function Effective(db: Db, events: seq<Event>): seq<Event> {
    if events == [] then []
    else
      var before := events[..|events| - 1];
      var last := events[|events| - 1];
      Effective(db, before) + if Fails(Run(db, before), last) then [] else [last]
  }

  /** A request that does not succeed leaves every table as it was. */
  lemma FailureChangesNothing(db: Db, e: Event)
    requires Fails(db, e)
    ensures Step(db, e).(used := db.used) == db && db.used <= Step(db, e).used
  {
  }

  lemma DatesRead(db: Db, used: set<Id>, user: User, now: int)
    requires user in db.users
    ensures DatesOf(db.(used := used), user, now) == DatesOf(db, user, now)
  {
    assert forall o :: Member(db.(used := used), o, user) == Member(db, o, user);
  }

  /** Which identifiers have been drawn has no part in the members' dates. */
  lemma DatedReads(db: Db, used: set<Id>, u: UpdateRequest)
    ensures Dated(db.(used := used), u.org, u.now) == Dated(db, u.org, u.now)
  {
    hide DatesOf;
    forall user | user in db.users
      ensures DatesOf(db.(used := used), user, u.now) == DatesOf(db, user, u.now)
    {
      DatesRead(db, used, user, u.now);
    }
  }

  lemma UpdatedReads(db: Db, used: set<Id>, u: UpdateRequest)
    requires u.org in db.orgs
    ensures Updated(db.(used := used), u) == Updated(db, u).(used := used)
  {
    hide Dated;
    var written := Updated(db, u).(users := db.users);
    DatedReads(written, used, u);
  }

  /** An effective event does the same when fewer identifiers have been drawn. */
  lemma StepReads(db: Db, used: set<Id>, e: Event)
    requires !Fails(db, e) && used <= db.used
    ensures var less := Step(db.(used := used), e);
            less.used <= Step(db, e).used && less == Step(db, e).(used := less.used)
  {
    hide Dated, Updated;
    if e.Update? {
      UpdatedReads(db, used, e.u);
    } else if e.TestMail? {
      assert forall id :: Recent(db.(used := used), e.t, id) == Recent(db, e.t, id);
    }
  }

  /** Leaving its failing updates and claims out of a run leaves the same tables behind. */
  lemma {:induction false} FailuresLeaveNoTrace(db: Db, events: seq<Event>)
    ensures var less := Run(db, Effective(db, events));
            less.used <= Run(db, events).used && less == Run(db, events).(used := less.used)
  {
    hide Step, Fails;
    if events == [] {
    } else {
      var before := events[..|events| - 1];
      var last := events[|events| - 1];
      FailuresLeaveNoTrace(db, before);
      var kept := Effective(db, before);
      if Fails(Run(db, before), last) {
        FailureChangesNothing(Run(db, before), last);
        assert Effective(db, events) == kept;
      } else {
        StepReads(Run(db, before), Run(db, kept).used, last);
        assert (kept + [last])[..|kept|] == kept;
      }
    }
  }

  /** A date a millisecond past one of those that it has to pass. */
  ghost predicate PassesJust(db: Db, after: Db, user: User, now: int)
    requires user in db.users && user in after.users
  {
    var date := after.users[user] - 1;
    || date == db.users[user] || date == now || (user in db.vault && db.vault[user] == date)
    || exists o :: o in after.orgs && Member(db, o, user) && after.orgs[o].revisionDate == date
  }

  /**
    A successful update dates every member strictly after the member's old date, the clock, their
    folders and ciphers, and all their organizations, just past the last of these, and nobody else.
  */
  lemma MembersAreDated(db: Db, u: UpdateRequest, user: User)
    requires Succeeds(db, Update(u), u.org) && user in db.users
    ensures var after := Step(db, Update(u));
            && after.orgs[u.org].updatedAt == u.now && after.orgs[u.org].revisionDate > u.now
            && after.orgs[u.org].revisionDate - 1 in {db.orgs[u.org].revisionDate, u.now}
            && (forall o :: o in db.orgs && o != u.org ==> o in after.orgs && after.orgs[o] == db.orgs[o])
            && user in after.users
            && (!Member(db, u.org, user) ==> after.users[user] == db.users[user])
            && (Member(db, u.org, user) ==>
                  && after.users[user] > db.users[user] && after.users[user] > u.now
                  && (user in db.vault ==> after.users[user] > db.vault[user])
                  && after.users[user] > after.orgs[u.org].revisionDate > db.orgs[u.org].revisionDate
                  && (forall o :: o in db.orgs && Member(db, o, user) ==>
                        after.users[user] > after.orgs[o].revisionDate)
                  && PassesJust(db, after, user, u.now))
  {
    var written := Updated(db, u).(users := db.users);
    if Member(db, u.org, user) {
      assert Member(written, u.org, user);
      forall o | o in db.orgs && Member(db, o, user)
        ensures written.orgs[o].revisionDate in DatesOf(written, user, u.now)
      {
        assert Member(written, o, user);
      }
    }
  }

  // ----- Test mails: spacing over every run -----

  ghost predicate Apart(a: Audit, b: Audit) {
    a.at <= b.at - COOLDOWN_MS || b.at <= a.at - COOLDOWN_MS
  }

  /** Any two test mails that share an organization or an actor are a cooldown apart. */
  ghost predicate Spaced(audits: map<Id, Audit>) {
    forall x, y :: x in audits && y in audits && x != y && Related(audits[x], audits[y]) ==>
      Apart(audits[x], audits[y])
  }

  predicate Related(a: Audit, b: Audit) {
    a.name.MailTest? && b.name.MailTest? && Shares(a, b.org, b.actor)
  }

  function AuditOf(t: TestRequest): Audit {
    Audit(MailTest, t.request, t.now, t.actor, t.org)
  }

  predicate IsClaim(db: Db, e: Event) {
    e.TestMail? && e.t.id !in db.used && Claims(db, e.t)
  }

  /** Every test mail of the actor or the organization was asked for at least five minutes before. */
  ghost predicate Rested(db: Db, t: TestRequest) {
    forall id :: id in db.audits && db.audits[id].name == MailTest
                 && (db.audits[id].actor == t.actor || db.audits[id].org == t.org) ==>
      t.now - db.audits[id].at >= 300_000
  }

  /**
    Who may send: exactly an owner who has seen the latest settings, with a recipient, and has rested;
    then the audit row that is the claim is inserted, and otherwise nothing is.
  */
  lemma ClaimIff(db: Db, t: TestRequest)
    requires Consistent(db) && t.id !in db.used
    ensures var after := Step(db, TestMail(t));
            var allowed := && t.owner && Latest(db, t.org, Some(t.revision)) && db.settings[t.org].recipient.Some?
                           && Rested(db, t);
            && (IsClaim(db, TestMail(t)) <==> allowed)
            && after.audits == (if allowed then db.audits[t.id := Audit(MailTest, t.request, t.now, t.actor, t.org)]
                                else db.audits)
            && after == db.(audits := after.audits, used := db.used + {t.id})
  {
    assert forall id :: id in db.audits ==>
             (Recent(db, t, id) <==>
                && db.audits[id].name == MailTest && (db.audits[id].actor == t.actor || db.audits[id].org == t.org)
                && t.now - db.audits[id].at < 300_000);
  }

  /** A claim keeps its distance from the mails whose rows retention has deleted. */
  ghost predicate Clear(db: Db, e: Event, record: map<Id, Audit>) {
    IsClaim(db, e) ==>
      forall id :: id in record && id !in db.audits && Related(record[id], AuditOf(e.t)) ==>
        Apart(record[id], AuditOf(e.t))
  }

  lemma StepSpaced(db: Db, e: Event, record: map<Id, Audit>)
    requires Consistent(db) && Within(db.audits, record) && record.Keys <= db.used && Spaced(record)
    ensures Spaced(record + Step(db, e).audits) <==> Clear(db, e, record)
  {
    hide Dated, Wins, Claims;
    if IsClaim(db, e) {
      ClaimSpaced(db, e.t, record);
      assert record + Step(db, e).audits == record[e.t.id := AuditOf(e.t)];
    } else {
      MailsKept(db, e, record);
    }
  }

  /** Any other event writes no test mail. */
  lemma MailsKept(db: Db, e: Event, record: map<Id, Audit>)
    requires Consistent(db) && Within(db.audits, record) && record.Keys <= db.used && !IsClaim(db, e)
    ensures var more := record + Step(db, e).audits;
            && Within(record, more)
            && forall id :: id in more && more[id].name.MailTest? ==> id in record
  {
    hide Dated, Wins, Claims;
  }

  lemma ClaimSpaced(db: Db, t: TestRequest, record: map<Id, Audit>)
    requires Within(db.audits, record) && Spaced(record) && t.id !in record && Claims(db, t)
    ensures Spaced(record[t.id := AuditOf(t)]) <==>
              forall id :: id in record && id !in db.audits && Related(record[id], AuditOf(t)) ==>
                Apart(record[id], AuditOf(t))
  {
    var more := record[t.id := AuditOf(t)];
    forall id | id in db.audits && Related(record[id], AuditOf(t))
      ensures Apart(record[id], AuditOf(t))
    {
      assert !Recent(db, t, id);
    }
    if Spaced(more) {
      forall id | id in record && Related(record[id], AuditOf(t))
        ensures Apart(record[id], AuditOf(t))
      {
        assert more[id] == record[id] && more[t.id] == AuditOf(t);
      }
    }
  }

  ghost predicate AllClear(db: Db, events: seq<Event>) {
    forall k :: 0 <= k < |events| ==> Clear(Run(db, events[..k]), events[k], Recorded(db, events[..k]))
  }

  lemma NoEventsClear(db: Db)
    ensures AllClear(db, [])
  {
  }

  lemma AllClearMore(db: Db, events: seq<Event>)
    requires events != []
    ensures var n := |events| - 1;
            AllClear(db, events) <==>
              AllClear(db, events[..n]) && Clear(Run(db, events[..n]), events[n], Recorded(db, events[..n]))
  {
    hide Clear, Run, Recorded;
    var n := |events| - 1;
    var before := events[..n];
    assert forall k :: 0 <= k < n ==> before[..k] == events[..k] && before[k] == events[k];
  }

  /**
    Over all the test mails ever sent, those that share an organization or an actor are a cooldown
    apart exactly when no claim comes within a cooldown of one whose audit row was cleaned away.
  */
  lemma {:induction false} SpacingIff(db: Db, events: seq<Event>)
    requires Consistent(db) && Spaced(db.audits)
    ensures Spaced(Recorded(db, events)) <==> AllClear(db, events)
  {
    hide Step, Spaced, Consistent, Clear, AllClear, Within, Cleaned;
    if events == [] {
      NoEventsClear(db);
    } else {
      var n := |events| - 1;
      var before := events[..n];
      SpacingIff(db, before);
      RunConsistent(db, before);
      RetentionTakesOldRows(db, before);
      AllClearMore(db, events);
      if Spaced(Recorded(db, before)) {
        StepSpaced(Run(db, before), events[n], Recorded(db, before));
      } else {
        StepWithin(Run(db, before), events[n], Recorded(db, before));
        SpacedBefore(Recorded(db, before), Recorded(db, events));
      }
    }
  }

  lemma SpacedBefore(record: map<Id, Audit>, more: map<Id, Audit>)
    requires Within(record, more)
    ensures Spaced(more) ==> Spaced(record)
  {
    forall x, y | Spaced(more) && x in record && y in record && x != y && Related(record[x], record[y])
      ensures Apart(record[x], record[y])
    {
      assert more[x] == record[x] && more[y] == record[y];
    }
  }

  /**
    No claim's clock is so far behind that of an earlier cleanup that the cleanup's cutoff, a year
    in its past, is less than a cooldown before the claim.
  */
  ghost predicate ClocksKeepUp(events: seq<Event>) {
    forall j, k :: 0 <= j < k < |events| && events[j].Retain? && events[k].TestMail? ==>
      events[k].t.now >= events[j].cutoff - 1 + COOLDOWN_MS
  }

  /** Test mails are spaced over every run in which clocks keep up, however they jump otherwise. */
  lemma SpacedForever(db: Db, events: seq<Event>)
    requires Consistent(db) && Spaced(db.audits) && ClocksKeepUp(events)
    ensures Spaced(Recorded(db, events))
  {
    hide Spaced, Claims, Run, Recorded;
    forall k | 0 <= k < |events|
      ensures Clear(Run(db, events[..k]), events[k], Recorded(db, events[..k]))
    {
      RetentionTakesOldRows(db, events[..k]);
      var record := Recorded(db, events[..k]);
      forall id | events[k].TestMail? && id in record && id !in Run(db, events[..k]).audits
        ensures Apart(record[id], AuditOf(events[k].t))
      {
        var j :| 0 <= j < k && events[..k][j].Retain? && record[id].at < events[..k][j].cutoff;
        assert events[j] == events[..k][j];
      }
    }
    SpacingIff(db, events);
  }

  /** An organization with saved settings, whose owner asks for a mail twice around a cleanup. */
  const SAVED := Db(map[0 := Organization("", 0, 0)], map[0 := Settings(None, None, Some("a@b"), 0, 0)],
                    map[], map[], map[], map[], {0})

  function Ask(id: Id, now: int): Event {
    TestMail(TestRequest(0, 0, true, 0, now, "", id))
  }

  lemma RecordedNext(db: Db, events: seq<Event>)
    requires events != []
    ensures var n := |events| - 1;
            && Run(db, events) == Step(Run(db, events[..n]), events[n])
            && Recorded(db, events) == Recorded(db, events[..n]) + Run(db, events).audits
  {
  }

  /** A mail was sent, and then its row was cleaned away. */
  lemma Forgotten(cutoff: int, at: int)
    requires at < cutoff
    ensures var events := [Ask(1, at), Retain(cutoff, {1})];
            && Run(SAVED, events) == SAVED.(used := {0, 1})
            && Recorded(SAVED, events) == map[1 := AuditOf(Ask(1, at).t)]
  {
    var events := [Ask(1, at), Retain(cutoff, {1})];
    assert events[..1] == [Ask(1, at)] && events[..1][..0] == [];
    RecordedNext(SAVED, events[..1]);
    RecordedNext(SAVED, events);
    assert Run(SAVED, []) == SAVED && Recorded(SAVED, []) == map[];
    hide Recorded, Run;
    assert Run(SAVED, events[..1]).audits == map[1 := AuditOf(Ask(1, at).t)];
  }

  /** The bound on the clocks is exact: for any claim below it there is a run with two mails too close. */
  lemma ClockFellBack(cutoff: int, now: int)
    requires now < cutoff - 1 + COOLDOWN_MS
    ensures var earlier := if now < cutoff then now else cutoff - 1;
            !Spaced(Recorded(SAVED, [Ask(1, earlier), Retain(cutoff, {1}), Ask(2, now)]))
  {
    var earlier := if now < cutoff then now else cutoff - 1;
    var events := [Ask(1, earlier), Retain(cutoff, {1}), Ask(2, now)];
    assert events[..2] == [Ask(1, earlier), Retain(cutoff, {1})] && events[..2][..1] == [Ask(1, earlier)];
    var first, second := AuditOf(Ask(1, earlier).t), AuditOf(Ask(2, now).t);
    Forgotten(cutoff, earlier);
    hide Recorded, Run;
    RecordedNext(SAVED, events);
    assert Claims(Run(SAVED, events[..2]), Ask(2, now).t);
    var record := Recorded(SAVED, events);
    assert record[1] == first && record[2] == second;
  }

  /** The test mails in a window of time by an actor, or for an organization. */
  ghost function InWindow(audits: map<Id, Audit>, org: Option<Org>, actor: Option<User>, from: int, width: nat):
    set<Id>
  {
    set id | id in audits && audits[id].name.MailTest? && from <= audits[id].at <= from + width
             && (org == Some(audits[id].org) || actor == Some(audits[id].actor))
  }

  function Slot(audits: map<Id, Audit>, from: int, id: Id): int
    requires id in audits
  {
    (audits[id].at - from) / COOLDOWN_MS
  }

  lemma {:induction false} SlotsDiffer(audits: map<Id, Audit>, from: int, ids: set<Id>, slots: set<int>)
    requires ids <= audits.Keys && forall id :: id in ids ==> Slot(audits, from, id) in slots
    requires forall x, y :: x in ids && y in ids && x != y ==> Slot(audits, from, x) != Slot(audits, from, y)
    ensures |ids| <= |slots|
  {
    if ids == {} {
    } else {
      var id :| id in ids;
      SlotsDiffer(audits, from, ids - {id}, slots - {Slot(audits, from, id)});
    }
  }

  lemma ApartSlots(a: Audit, b: Audit, from: int)
    requires Apart(a, b)
    ensures (a.at - from) / COOLDOWN_MS != (b.at - from) / COOLDOWN_MS
  {
  }

  lemma SpacedBound(audits: map<Id, Audit>, org: Option<Org>, actor: Option<User>, from: int, width: nat)
    requires Spaced(audits) && (org.None? || actor.None?)
    ensures |InWindow(audits, org, actor, from, width)| <= width / COOLDOWN_MS + 1
  {
    var ids, slots := InWindow(audits, org, actor, from, width), Range(width / COOLDOWN_MS + 1);
    forall x, y | x in ids && y in ids && x != y
      ensures Slot(audits, from, x) != Slot(audits, from, y)
    {
      ApartSlots(audits[x], audits[y], from);
    }
    SlotsDiffer(audits, from, ids, slots);
  }

  /** The rows in the table are spaced, whatever clocks and cleanups do. */
  lemma {:induction false} RunSpaced(db: Db, events: seq<Event>)
    requires Consistent(db) && Spaced(db.audits)
    ensures Spaced(Run(db, events).audits)
  {
    hide Step, Spaced, Consistent;
    if events == [] {
    } else {
      var before := events[..|events| - 1];
      var last := events[|events| - 1];
      RunSpaced(db, before);
      RunConsistent(db, before);
      TableSpaced(Run(db, before), last);
    }
  }

  lemma TableSpaced(db: Db, e: Event)
    requires Consistent(db) && Spaced(db.audits)
    ensures Spaced(Step(db, e).audits)
  {
    hide Dated, Wins, Step, Spaced;
    ConsistentUsed(db);
    StepSpaced(db, e, db.audits);
    StepWithin(db, e, db.audits);
    SpacedBefore(Step(db, e).audits, db.audits + Step(db, e).audits);
  }

  /**
    In a window of W ms an organization, or an actor, has at most W / 300000 + 1 rows of test mails
    in the table, whatever clocks and cleanups do, and is sent at most as many mails if clocks keep up.
  */
  lemma WindowBound(db: Db, events: seq<Event>, org: Option<Org>, actor: Option<User>, from: int, width: nat)
    requires Consistent(db) && Spaced(db.audits) && (org.None? || actor.None?)
    ensures |InWindow(Run(db, events).audits, org, actor, from, width)| <= width / COOLDOWN_MS + 1
    ensures ClocksKeepUp(events) ==>
              |InWindow(Recorded(db, events), org, actor, from, width)| <= width / COOLDOWN_MS + 1
  {
    RunSpaced(db, events);
    SpacedBound(Run(db, events).audits, org, actor, from, width);
    if ClocksKeepUp(events) {
      SpacedForever(db, events);
      SpacedBound(Recorded(db, events), org, actor, from, width);
    }
  }

  /**
    A claim names the recipient saved with the revision it was asked for: by the last successful
    update of the organization, or before the run if there was none.
  */
  lemma ClaimedRecipient(db: Db, events: seq<Event>, t: TestRequest)
    requires Consistent(db) && Claims(Run(db, events), t)
    ensures var chain, recipient := Successes(db, events, t.org), Run(db, events).settings[t.org].recipient;
            && recipient.Some?
            && if chain == [] then
                 && t.org in db.settings && db.settings[t.org].revision == t.revision
                 && db.settings[t.org].recipient == recipient
               else
                 chain[|chain| - 1].revision == t.revision && chain[|chain| - 1].input.recipient == recipient
  {
    NoLostUpdates(db, events, t.org);
  }
}

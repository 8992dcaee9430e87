/**
  The statements of src/company-settings.ts and src/company-test-mail.ts, one after another over the
  tables: a batch takes effect whole, and everything else happens between batches.
*/
module CompanyBatch {
  import opened Company
  import opened Options

  /** The caller's role when the settings are read back. */
  datatype Role = Owner | Admin | Outsider

  datatype Current = Current(revision: Option<Id>, recipient: Option<string>, canEdit: bool)

  datatype UpdateStatus = Saved(settings: Input) | Conflict | NotFound

  datatype TestStatus = Accepted | DeliveryUnknown | NoSuchCompany | StaleRevision | RecipientRequired | RateLimited

  /** How the mailer's answer to a test goes; anything but 202 leaves the delivery unknown. */
  datatype MailerReply = Status(code: nat) | Failed | TimedOut

  datatype Mail = Mail(recipient: string, testId: Id)

  /** readCompanySettings. */
  function Read(db: Db, org: Org, role: Role): Option<Current> {
    if org !in db.orgs || role.Outsider? then None
    else
      var recipient := if org in db.settings then db.settings[org].recipient else None;
      Some(Current(RevisionOf(db, org), recipient, role.Owner?))
  }

  function UpdateRefusal(db: Db, org: Org, role: Role): UpdateStatus {
    var current := Read(db, org, role);
    if current.Some? && current.value.canEdit then Conflict else NotFound
  }

  function TestRefusal(db: Db, t: TestRequest, role: Role): TestStatus {
    var current := Read(db, t.org, role);
    if current.None? || !current.value.canEdit then NoSuchCompany
    else if current.value.revision != Some(t.revision) then StaleRevision
    else if current.value.recipient.None? then RecipientRequired
    else RateLimited
  }

  /** When nothing changes in between, each refusal has its one cause. */
  lemma RefusalsAreExact(db: Db, t: TestRequest, role: Role)
    requires !Claims(db, t) && (t.owner <==> role.Owner?)
    ensures var current := t.owner && t.org in db.orgs && Latest(db, t.org, Some(t.revision));
            && (TestRefusal(db, t, role) == NoSuchCompany <==> !t.owner || t.org !in db.orgs)
            && (TestRefusal(db, t, role) == StaleRevision <==>
                  t.owner && t.org in db.orgs && !Latest(db, t.org, Some(t.revision)))
            && (TestRefusal(db, t, role) == RecipientRequired <==> current && db.settings[t.org].recipient.None?)
            && (TestRefusal(db, t, role) == RateLimited <==>
                  current && db.settings[t.org].recipient.Some? && !Rested(db, t))
  {
    assert forall id :: Recent(db, t, id) ==> t.now - db.audits[id].at < 300_000;
  }

  /** A refused update is a conflict exactly for an owner of an existing organization. */
  lemma ConflictIff(db: Db, org: Org, role: Role)
    ensures UpdateRefusal(db, org, role) == if org in db.orgs && role == Owner then Conflict else NotFound
  {
  }

  class Tables {
    var orgs: map<Org, Organization>
    var settings: map<Org, Settings>
    var audits: map<Id, Audit>
    var users: map<User, int>
    var vault: map<User, int>
    var members: map<Org, set<User>>
    var used: set<Id>

    function State(): Db
      reads this
    {
      Db(orgs, settings, audits, users, vault, members, used)
    }

    /** What happens between two of a caller's statements. */
    method Elsewhere(events: seq<Event>)
      modifies this
      ensures State() == Run(old(State()), events)
    {
      var db := Run(State(), events);
      orgs, settings, audits := db.orgs, db.settings, db.audits;
      users, vault, members, used := db.users, db.vault, db.members, db.used;
    }

    predicate Holds(org: Org, revision: Id)
      reads this
    {
      org in settings && settings[org].revision == revision
    }

    /**
      The batch. Only its first statement looks at the caller and the revision they have seen; the
      others follow the fresh revision, and the fourth aborts the batch if one of them is missing.
    */
    method SettingsBatch(u: UpdateRequest) returns (written: bool)
      requires Consistent(State()) && u.revision !in used
      modifies this
      ensures written == Wins(old(State()), u)
      ensures State() == Step(old(State()), Update(u))
    {
      hide Dated;
      used := used + {u.revision};
      if u.owner && u.org in orgs && RevisionOf(State(), u.org) == u.input.revision {
        settings := settings[u.org := Settings(u.input.domain, u.input.count, u.input.recipient, u.revision, u.now)];
      }
      if u.org in orgs && Holds(u.org, u.revision) {
        var o := orgs[u.org];
        orgs := orgs[u.org := Organization(u.input.name, u.now, Later(o.revisionDate, u.now) + 1)];
      }
      if Holds(u.org, u.revision) {
        audits := audits[u.revision := Audit(SettingsUpdate, u.request, u.now, u.actor, u.org)];
      }
      if Holds(u.org, u.revision)
         && (u.revision !in audits || u.org !in orgs || orgs[u.org].name != u.input.name) {
        assert false;
      }
      if u.revision in audits {
        DatedReads(State(), old(used), u);
        users := Dated(State(), u.org, u.now);
      }
      written := Holds(u.org, u.revision);
    }

    method UpdateCompanySettings(u: UpdateRequest, meanwhile: seq<Event>, roleAtRead: Role)
      returns (status: UpdateStatus)
      requires Consistent(State()) && u.revision !in used
      modifies this
      ensures Wins(old(State()), u) ==>
                && status == Saved(u.input.(revision := Some(u.revision)))
                && State() == Step(old(State()), Update(u))
      ensures !Wins(old(State()), u) ==>
                && State() == Run(Step(old(State()), Update(u)), meanwhile)
                && status == UpdateRefusal(State(), u.org, roleAtRead)
    {
      hide Step, Run, Consistent;
      var written := SettingsBatch(u);
      if written {
        return Saved(u.input.(revision := Some(u.revision)));
      }
      Elsewhere(meanwhile);
      var current := Read(State(), u.org, roleAtRead);
      return if current.Some? && current.value.canEdit then Conflict else NotFound;
    }

    /** The claim: the audit row is inserted, and names the saved recipient, or there is no claim. */
    method Claim(t: TestRequest) returns (recipient: Option<string>)
      requires t.id !in used
      modifies this
      ensures State() == Step(old(State()), TestMail(t))
      ensures recipient == if Claims(old(State()), t) then old(settings)[t.org].recipient else None
    {
      used := used + {t.id};
      if t.owner && Holds(t.org, t.revision) && settings[t.org].recipient.Some?
         && !(exists id :: id in audits && audits[id].name.MailTest?
                           && audits[id].at > t.now - COOLDOWN_MS
                           && (audits[id].actor == t.actor || audits[id].org == t.org)) {
        recipient := settings[t.org].recipient;
        audits := audits[t.id := Audit(MailTest, t.request, t.now, t.actor, t.org)];
      } else {
        recipient := None;
      }
    }

    /** A mail leaves only for the caller's own claim, to the recipient that the claim named. */
    method RequestCompanyTestMail(t: TestRequest, reply: MailerReply, meanwhile: seq<Event>, roleAtRead: Role)
      returns (status: TestStatus, sent: Option<Mail>)
      requires t.id !in used
      modifies this
      ensures Claims(old(State()), t) ==>
                && State() == Step(old(State()), TestMail(t))
                && t.id in audits && audits[t.id] == Audit(MailTest, t.request, t.now, t.actor, t.org)
                && sent == Some(Mail(old(settings)[t.org].recipient.value, t.id))
                && status == if reply == Status(202) then Accepted else DeliveryUnknown
      ensures !Claims(old(State()), t) ==>
                && State() == Run(Step(old(State()), TestMail(t)), meanwhile)
                && sent == None
                && status == TestRefusal(State(), t, roleAtRead)
    {
      hide Run;
      var claim := Claim(t);
      sent := None;
      if claim.None? {
        Elsewhere(meanwhile);
        var current := Read(State(), t.org, roleAtRead);
        if current.None? || !current.value.canEdit {
          return NoSuchCompany, None;
        }
        if current.value.revision != Some(t.revision) {
          return StaleRevision, None;
        }
        if current.value.recipient.None? {
          return RecipientRequired, None;
        }
        return RateLimited, None;
      }
      sent := Some(Mail(claim.value, t.id));
      var accepted := reply.Status? && reply.code == 202;
      return if accepted then Accepted else DeliveryUnknown, sent;
    }
  }
}

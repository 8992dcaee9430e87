/**
  The one-shot account of src/initial-setup.ts: a receipt that is written with the first account,
  and that outlives it.
*/
module InitialSetup {
  import opened Options

  type Id = nat

  datatype Db = Db(receipt: Option<Id>, users: set<Id>, audits: set<Id>)

  /** A setup with its fresh user id, an account made another way, an account removed. */
  datatype Event = Setup(user: Id) | Enroll(user: Id) | Remove(user: Id)

  predicate Opens(db: Db) {
    db.receipt.None? && db.users == {}
  }

  function Step(db: Db, e: Event): Db {
    match e
    case Setup(user) => if Opens(db) then Db(Some(user), {user}, db.audits + {user}) else db
    case Enroll(user) => db.(users := db.users + {user})
    case Remove(user) => db.(users := db.users - {user})
  }

  /** A setup writes its receipt, its account and its audit row, all three exactly when setup is open. */
  lemma SetupIff(db: Db, user: Id)
    requires user !in db.users && user !in db.audits && db.receipt != Some(user)
    ensures var after, open := Step(db, Setup(user)), db.receipt == None && db.users == {};
            && (after.receipt == Some(user) <==> open) && (user in after.users <==> open)
            && (user in after.audits <==> open)
            && (forall other :: other != user ==>
                  (other in after.users <==> other in db.users) && (other in after.audits <==> other in db.audits))
  {
  }

  function Run(db: Db, events: seq<Event>): Db {
    if events == [] then db else Step(Run(db, events[..|events| - 1]), events[|events| - 1])
  }

  /** The setup that is the event at an index creates its account. */
  predicate Creates(db: Db, events: seq<Event>, i: nat)
    requires i < |events|
  {
    events[i].Setup? && Opens(Run(db, events[..i]))
  }

  lemma {:induction false} ReceiptStays(db: Db, events: seq<Event>, i: nat)
    requires i <= |events| && Run(db, events[..i]).receipt.Some?
    ensures Run(db, events).receipt == Run(db, events[..i]).receipt
  {
    if i == |events| {
      assert events[..i] == events;
    } else {
      assert events[..|events| - 1][..i] == events[..i];
      ReceiptStays(db, events[..|events| - 1], i);
    }
  }

  /** In any run at most one setup creates an account, even when every account is removed again. */
  lemma CreatesOnce(db: Db, events: seq<Event>, i: nat, j: nat)
    requires i < |events| && j < |events| && Creates(db, events, i) && Creates(db, events, j)
    ensures i == j
  {
    var first, second := if i < j then i else j, if i < j then j else i;
    if first < second {
      assert events[..first + 1][..first] == events[..first];
      assert events[..second][..first + 1] == events[..first + 1];
      ReceiptStays(db, events[..second], first + 1);
    }
  }

  lemma {:induction false} ReceiptIff(events: seq<Event>)
    ensures Run(Db(None, {}, {}), events).receipt.Some? <==>
              exists i :: 0 <= i < |events| && Creates(Db(None, {}, {}), events, i)
  {
    var empty := Db(None, {}, {});
    if events == [] {
    } else {
      var n := |events| - 1;
      var before := events[..n];
      ReceiptIff(before);
      assert forall i :: 0 <= i < n ==> before[..i] == events[..i];
      assert forall i :: 0 <= i < n ==> (Creates(empty, before, i) <==> Creates(empty, events, i));
      if Run(empty, before).receipt.Some? {
        var i :| 0 <= i < n && Creates(empty, before, i);
        assert Creates(empty, events, i);
      }
      if Creates(empty, events, n) {
        assert Run(empty, events).receipt.Some?;
      }
    }
  }

  /** A setup creates its account exactly when none was ever created by a setup and none exists. */
  lemma OpensIff(events: seq<Event>)
    ensures var db := Run(Db(None, {}, {}), events);
            Opens(db) <==> db.users == {} && forall i :: 0 <= i < |events| ==> !Creates(Db(None, {}, {}), events, i)
  {
    ReceiptIff(events);
  }

  class Tables {
    var receipt: Option<Id>
    var users: set<Id>
    var audits: set<Id>

    function State(): Db
      reads this
    {
      Db(receipt, users, audits)
    }

    /** The batch: every statement after the first follows the receipt. */
    method CreateInitialAccount(user: Id) returns (created: bool)
      requires user !in users && user !in audits && receipt != Some(user)
      modifies this
      ensures created == Opens(old(State()))
      ensures State() == Step(old(State()), Setup(user))
    {
      if users == {} && receipt.None? {
        receipt := Some(user);
      }
      if receipt == Some(user) {
        users := users + {user};
      }
      if receipt == Some(user) {
        audits := audits + {user};
      }
      if receipt == Some(user) && (user !in users || user !in audits) {
        assert false;
      }
      created := user in users;
    }
  }
}

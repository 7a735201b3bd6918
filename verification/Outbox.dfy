/**
 The event outbox (backend/app/modules/notification): what delivering one event does, and the session methods that do
 it row by row. Free text (errors, payload bodies) is not modelled; an event keeps its type and its audience.
 */
module Outbox {
  import opened Wrappers
  import opened Directory
  import Scope

  datatype EventType =
    | UserCreated | ItemCatalogCreated | InventoryLowStock | ItemRequestCreated | ItemRequestApproved
    | ItemRequestRejected | ItemRequestFulfilled | ItemReturned | LoanRequestCreated | LoanRequestActivated
    | LoanRequestSettled | AssetAssigned | AssetReturned | Other(name: string)

  /** A value of the payload read as a UUID. */
  datatype RawId = Parsed(id: Uuid) | Unparsable

  datatype ScopeAudience = ScopeAudience(permission: string, workplace: Option<RawId>)

  datatype Audience = Audience(users: seq<RawId>, scope: Option<ScopeAudience>)

  datatype Status = Pending | Processing | Delivered | Failed | Skipped

  datatype Event = Event(eventType: EventType, audience: Audience, status: Status, attempts: nat)

  /** A notification row: the outbox event it came from and its recipient. */
  type Row = (nat, Uuid)

  const MAX_ATTEMPTS := 5

  predicate IsTerminal(status: Status) {
    status == Delivered || status == Failed || status == Skipped
  }

  // ------------------------------------------------------------------------------------ one event

  predicate AllParsed(ids: seq<RawId>) {
    forall raw <- ids :: raw.Parsed?
  }

  function Ids(ids: seq<RawId>): set<Uuid>
    requires AllParsed(ids)
  {
    set raw | raw in ids :: raw.id
  }

  predicate UsesScope(audience: Audience) {
    audience.scope.Some? && audience.scope.value.permission != ""
  }

  /** The scope-covered holders of the payload's audience. */
  function ScopeRecipients(db: Tables, scope: ScopeAudience): Result<set<Uuid>, ()> {
    if scope.workplace.Some? && scope.workplace.value.Unparsable? then Failure(())
    else
      var workplace := if scope.workplace.None? then None else Some(scope.workplace.value.id);
      match RecipientIds(db, scope.permission, workplace)
      case Failure(_) => Failure(())
      case Success(users) => Success(users)
  }

  /** The recipients of an audience: named users and scope holders, or the error that makes resolution retry. */
  function Recipients(db: Tables, audience: Audience): Result<set<Uuid>, ()> {
    if !AllParsed(audience.users) then Failure(())
    else if !UsesScope(audience) then Success(Ids(audience.users))
    else
      match ScopeRecipients(db, audience.scope.value)
      case Failure(_) => Failure(())
      case Success(users) => Success(Ids(audience.users) + users)
  }

  function ActiveRecipients(db: Tables, audience: Audience): set<Uuid> {
    match Recipients(db, audience)
    case Failure(_) => {}
    case Success(users) => set user | user in users && IsActive(db, user)
  }

  /** `mark_retry`. */
  function Retried(e: Event): Event {
    e.(attempts := e.attempts + 1, status := if e.attempts + 1 >= MAX_ATTEMPTS then Failed else Pending)
  }

  /** What `deliver_event` leaves in the event's row. */
  function DeliveredEvent(e: Event, db: Tables): Event {
    if e.eventType.Other? then e.(status := Failed)
    else if Recipients(db, e.audience).Failure? then Retried(e)
    else if ActiveRecipients(db, e.audience) == {} then e.(status := Skipped)
    else e.(status := Delivered)
  }

  /** The users `deliver_event` writes notification rows for. */
  function NotifiedUsers(e: Event, db: Tables): set<Uuid> {
    if e.eventType.Other? then {} else ActiveRecipients(db, e.audience)
  }

  /** An insert that skips the rows already there. */
  function InsertMissing(rows: multiset<Row>, i: nat, users: set<Uuid>): multiset<Row> {
    rows + multiset(set user | user in users && (i, user) !in rows :: (i, user))
  }

  lemma InsertMissingCounts(rows: multiset<Row>, i: nat, users: set<Uuid>, row: Row)
    ensures InsertMissing(rows, i, users)[row] ==
            if row.0 == i && row.1 in users && rows[row] == 0 then 1 else rows[row]
  {
  }

  /** The rows of a critical event, which its emitter writes itself. */
  function NewRows(i: nat, users: set<Uuid>): multiset<Row> {
    multiset(set user | user in users :: (i, user))
  }

  function SetOf(users: seq<Uuid>): set<Uuid> {
    set user | user in users
  }

  lemma NewRowsCount(i: nat, users: set<Uuid>, row: Row)
    ensures NewRows(i, users)[row] == if row.0 == i && row.1 in users then 1 else 0
  {
  }

  /** The claim's change of status to `processing` does not show in what a delivery leaves. */
  lemma ClaimIsInvisible(e: Event, db: Tables)
    ensures DeliveredEvent(e.(status := Processing), db) == DeliveredEvent(e, db)
    ensures NotifiedUsers(e.(status := Processing), db) == NotifiedUsers(e, db)
  {
  }

  // ------------------------------------------------------------------------------------ one poll

  function PendingCount(events: seq<Event>): nat {
    if events == [] then 0 else PendingCount(events[..|events| - 1]) + if events[|events| - 1].status == Pending then 1 else 0
  }

  /** The event is among the first `limit` pending ones. */
  predicate IsClaimed(events: seq<Event>, limit: nat, i: nat)
    requires i < |events|
  {
    events[i].status == Pending && PendingCount(events[..i]) < limit
  }

  /** The events after one undisturbed poll: claimed ones delivered, the others as they were. */
  function Polled(events: seq<Event>, limit: nat, db: Tables): (r: seq<Event>) {
    seq(|events|, i requires 0 <= i < |events| =>
      if IsClaimed(events, limit, i) then DeliveredEvent(events[i], db) else events[i])
  }

  /** The multiplicity of a row after one undisturbed poll. */
  function PolledCount(events: seq<Event>, rows: multiset<Row>, limit: nat, db: Tables, row: Row): nat {
    if row.0 < |events| && IsClaimed(events, limit, row.0) && row.1 in NotifiedUsers(events[row.0], db) && rows[row] == 0
    then 1 else rows[row]
  }

  /** The ids that `claim_pending` selects: the first `limit` pending events, oldest first. */
  function ClaimedFrom(events: seq<Event>, limit: nat, n: nat): (ids: seq<nat>)
    requires n <= |events|
    ensures forall i: nat :: i in ids <==> i < n && IsClaimed(events, limit, i)
    ensures NoDuplicates(ids)
  {
    if n == 0 then []
    else
      var before := ClaimedFrom(events, limit, n - 1);
      if IsClaimed(events, limit, n - 1) then before + [n - 1] else before
  }

  predicate NoDuplicates<T(==)>(s: seq<T>) {
    forall j, k :: 0 <= j < k < |s| ==> s[j] != s[k]
  }

  /** The session: the tables as the open transaction sees them, and as last committed. */
  class Session {
    var events: seq<Event>
    var rows: multiset<Row>
    var committedEvents: seq<Event>
    var committedRows: multiset<Row>

    constructor (events: seq<Event>, rows: multiset<Row>)
      ensures this.events == committedEvents == events && this.rows == committedRows == rows
    {
      this.events, this.rows := events, rows;
      committedEvents, committedRows := events, rows;
    }

    method Commit()
      modifies this
      ensures committedEvents == events == old(events) && committedRows == rows == old(rows)
    {
      committedEvents, committedRows := events, rows;
    }

    method Rollback()
      modifies this
      ensures events == committedEvents == old(committedEvents) && rows == committedRows == old(committedRows)
    {
      events, rows := committedEvents, committedRows;
    }

    /** `record_event`: appends a pending event, unless its type is unknown. */
    method RecordEvent(eventType: EventType, audience: Audience) returns (r: Option<nat>)
      modifies this`events
      ensures eventType.Other? ==> r.None? && events == old(events)
      ensures !eventType.Other? ==> r == Some(|old(events)|) && events == old(events) + [Event(eventType, audience, Pending, 0)]
    {
      if eventType.Other? {
        return None;
      }
      events := events + [Event(eventType, audience, Pending, 0)];
      r := Some(|events| - 1);
    }

    /**
     `deliver_critical`: writes the rows in the emitter's own transaction and marks the event. A row that is already
     there breaks the unique index, and the emitter's transaction fails with it.
     */
    method DeliverCritical(i: nat, recipients: seq<Uuid>) returns (ok: bool)
      requires i < |events| && forall user <- recipients :: (i, user) !in rows
      modifies this
      ensures ok <==> NoDuplicates(recipients)
      ensures ok ==> events == old(events)[i := old(events)[i].(status := Delivered)] &&
                     rows == old(rows) + NewRows(i, SetOf(recipients))
      ensures !ok ==> events == old(committedEvents) && rows == old(committedRows)
      ensures committedEvents == old(committedEvents) && committedRows == old(committedRows)
    {
      assert NewRows(i, SetOf([])) == multiset{};
      for k := 0 to |recipients|
        invariant events == old(events) && committedEvents == old(committedEvents) && committedRows == old(committedRows)
        invariant NoDuplicates(recipients[..k]) && rows == old(rows) + NewRows(i, SetOf(recipients[..k]))
      {
        var user := recipients[k];
        NewRowsCount(i, SetOf(recipients[..k]), (i, user));
        assert user in recipients;
        if (i, user) in rows {
          Rollback();
          return false;
        }
        rows := rows + multiset{(i, user)};
        OneMoreRow(i, recipients, k);
      }
      assert recipients[..|recipients|] == recipients;
      events := events[i := events[i].(status := Delivered)];
      ok := true;
    }

    /** `_resolve_recipients`: grows `resolved` and `seen`, and raises on the first id it cannot read. */
    method ResolveRecipients(db: Tables, audience: Audience) returns (r: Result<seq<Uuid>, ()>)
      ensures r.Success? <==> Recipients(db, audience).Success?
      ensures r.Success? ==> NoDuplicates(r.value) && (set user | user in r.value) == Recipients(db, audience).value
    {
      hide RecipientIds, ScopeRecipients;
      var resolved: seq<Uuid>, seen: set<Uuid> := [], {};
      for i := 0 to |audience.users|
        invariant AllParsed(audience.users[..i])
        invariant NoDuplicates(resolved) && seen == Ids(audience.users[..i]) && seen == set user | user in resolved
      {
        var raw := audience.users[i];
        assert raw in audience.users;
        if raw.Unparsable? {
          return Failure(());
        }
        assert audience.users[..i + 1] == audience.users[..i] + [raw];
        if raw.id !in seen {
          seen := seen + {raw.id};
          resolved := resolved + [raw.id];
        }
      }
      assert audience.users[..|audience.users|] == audience.users;
      if UsesScope(audience) {
        var users := ScopeRecipients(db, audience.scope.value);
        if users.Failure? {
          return Failure(());
        }
        var rest := users.value;
        while rest != {}
          invariant rest <= users.value
          invariant NoDuplicates(resolved) && seen == (Ids(audience.users) + users.value) - (rest - seen)
          invariant seen == set user | user in resolved
          decreases rest
        {
          var user :| user in rest;
          rest := rest - {user};
          if user !in seen {
            seen := seen + {user};
            resolved := resolved + [user];
          }
        }
      }
      r := Success(resolved);
    }

    /** `mark_retry`: bounded retry, then terminal failure. */
    method MarkRetry(i: nat) returns (status: Status)
      requires i < |events|
      modifies this`events
      ensures events == old(events)[i := Retried(old(events)[i])] && status == events[i].status
    {
      var e := events[i];
      e := e.(attempts := e.attempts + 1);
      if e.attempts >= MAX_ATTEMPTS {
        events := events[i := e.(status := Failed)];
        return Failed;
      }
      events := events[i := e.(status := Pending)];
      status := Pending;
    }

    /** `deliver_event`. */
    method DeliverEvent(i: nat, db: Tables) returns (status: Status)
      requires i < |events|
      modifies this`events, this`rows
      ensures events == old(events)[i := DeliveredEvent(old(events)[i], db)] && status == events[i].status
      ensures rows == InsertMissing(old(rows), i, NotifiedUsers(old(events)[i], db))
    {
      var e := events[i];
      assert InsertMissing(rows, i, {}) == rows by {
        assert (set user: Uuid | user in {} && (i, user) !in rows :: (i, user)) == {};
      }
      if e.eventType.Other? {
        events := events[i := e.(status := Failed)];
        return Failed;
      }
      var recipients := ResolveRecipients(db, e.audience);
      if recipients.Failure? {
        status := MarkRetry(i);
        return;
      }
      var active := FilterActive(db, recipients.value);
      assert active == ActiveRecipients(db, e.audience);
      if recipients.value == [] || active == {} {
        events := events[i := e.(status := Skipped)];
        return Skipped;
      }
      rows := InsertMissing(rows, i, active);
      events := events[i := e.(status := Delivered)];
      status := Delivered;
    }

    /** `claim_pending`: marks the claimed events one by one. */
    method ClaimPending(limit: nat) returns (ids: seq<nat>)
      modifies this`events
      ensures ids == ClaimedFrom(old(events), limit, |old(events)|)
      ensures |events| == |old(events)|
      ensures forall i :: 0 <= i < |events| ==>
                events[i] == if IsClaimed(old(events), limit, i) then old(events)[i].(status := Processing) else old(events)[i]
    {
      ids := ClaimedFrom(events, limit, |events|);
      for k := 0 to |ids|
        invariant |events| == |old(events)|
        invariant forall i :: 0 <= i < |events| ==>
                    events[i] == if i in ids[..k] then old(events)[i].(status := Processing) else old(events)[i]
      {
        assert ids[k] in ids && ids[..k + 1] == ids[..k] + [ids[k]];
        events := events[ids[k] := events[ids[k]].(status := Processing)];
      }
      assert ids[..|ids|] == ids;
    }

    /** `deliver_claimed_batch`, or its first part when an exception cuts it short. */
    method DeliverClaimedBatch(ids: seq<nat>, count: nat, db: Tables)
      requires count <= |ids| && NoDuplicates(ids) && forall i <- ids :: i < |events|
      modifies this`events, this`rows
      ensures |events| == |old(events)|
      ensures forall i :: 0 <= i < |events| ==>
                events[i] == if i in ids[..count] then DeliveredEvent(old(events)[i], db) else old(events)[i]
      ensures forall row: Row ::
                rows[row] == if row.0 < |old(events)| && row.0 in ids[..count] &&
                                row.1 in NotifiedUsers(old(events)[row.0], db) && old(rows)[row] == 0
                             then 1 else old(rows)[row]
    {
      for k := 0 to count
        invariant |events| == |old(events)|
        invariant forall i :: 0 <= i < |events| ==>
                    events[i] == if i in ids[..k] then DeliveredEvent(old(events)[i], db) else old(events)[i]
        invariant forall row: Row ::
                    rows[row] == if row.0 < |old(events)| && row.0 in ids[..k] &&
                                    row.1 in NotifiedUsers(old(events)[row.0], db) && old(rows)[row] == 0
                                 then 1 else old(rows)[row]
      {
        var i := ids[k];
        assert i in ids && ids[..k + 1] == ids[..k] + [i] && i !in ids[..k];
        ghost var before := rows;
        var status := DeliverEvent(i, db);
        forall row: Row
          ensures rows[row] == if row.0 == i && row.1 in NotifiedUsers(old(events)[i], db) && before[row] == 0 then 1 else before[row]
        {
          InsertMissingCounts(before, i, NotifiedUsers(old(events)[i], db), row);
        }
      }
    }

    /**
     `_poll_once`. The batch is delivered before the first commit, so the poll takes effect as a whole or, when a
     database error or a crash stops it after some deliveries, not at all.
     */
    method PollOnce(limit: nat, db: Tables, crashAfter: Option<nat>) returns (claimed: nat)
      requires events == committedEvents && rows == committedRows
      modifies this
      ensures events == committedEvents && rows == committedRows
      ensures claimed == |ClaimedFrom(old(events), limit, |old(events)|)|
      ensures crashAfter.Some? && crashAfter.value < claimed ==> events == old(events) && rows == old(rows)
      ensures crashAfter.None? || crashAfter.value >= claimed ==>
                events == Polled(old(events), limit, db) &&
                forall row: Row :: rows[row] == PolledCount(old(events), old(rows), limit, db, row)
    {
      hide DeliveredEvent, NotifiedUsers, Recipients;
      var ids := ClaimPending(limit);
      claimed := |ids|;
      if ids == [] {
        Rollback();
        NothingClaimed(old(events), limit, db);
        return;
      }
      forall i | 0 <= i < |events|
        ensures DeliveredEvent(events[i], db) == DeliveredEvent(old(events)[i], db)
        ensures NotifiedUsers(events[i], db) == NotifiedUsers(old(events)[i], db)
      {
        ClaimIsInvisible(old(events)[i], db);
      }
      var crashes := crashAfter.Some? && crashAfter.value < claimed;
      DeliverClaimedBatch(ids, if crashes then crashAfter.value else claimed, db);
      if crashes {
        Rollback();
      } else {
        assert ids[..|ids|] == ids;
        Commit();
      }
    }

    /** `reclaim_processing`: start-up recovery of events left in `processing`. */
    method ReclaimProcessing() returns (count: nat)
      modifies this`events
      ensures events == Reclaimed(old(events)) && |events| == |old(events)|
      ensures forall i :: 0 <= i < |events| ==>
                events[i] == if old(events)[i].status == Processing then old(events)[i].(status := Pending) else old(events)[i]
    {
      count := 0;
      for i := 0 to |events|
        invariant |events| == |old(events)|
        invariant events[..i] == Reclaimed(old(events))[..i] && events[i..] == old(events)[i..]
      {
        if events[i].status == Processing {
          events := events[i := events[i].(status := Pending)];
          count := count + 1;
        }
      }
    }
  }

  lemma OneMoreRow(i: nat, users: seq<Uuid>, k: nat)
    requires k < |users| && users[k] !in users[..k]
    ensures NewRows(i, SetOf(users[..k + 1])) == NewRows(i, SetOf(users[..k])) + multiset{(i, users[k])}
  {
  }

  function Reclaimed(events: seq<Event>): seq<Event> {
    seq(|events|, i requires 0 <= i < |events| =>
      if events[i].status == Processing then events[i].(status := Pending) else events[i])
  }

  lemma NothingClaimed(events: seq<Event>, limit: nat, db: Tables)
    requires ClaimedFrom(events, limit, |events|) == []
    ensures Polled(events, limit, db) == events
    ensures forall i :: 0 <= i < |events| ==> !IsClaimed(events, limit, i)
  {
    forall i | 0 <= i < |events|
      ensures !IsClaimed(events, limit, i)
    {
      assert i !in ClaimedFrom(events, limit, |events|);
    }
  }
}

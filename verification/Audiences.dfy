/**
 Who a notification is for, read off the tables and the payload (backend/app/modules/notification/service.py:27-104),
 and what a delivery does to the event: stated without the functions that the relay resolves it with.
 */
module Audiences {
  import opened Wrappers
  import opened Scope
  import opened Directory
  import opened Outbox

  // ------------------------------------------------------------------------------------ readable payloads

  predicate HasTwoColons(code: string) {
    exists i, j :: 0 <= i < j < |code| && code[i] == ':' && code[j] == ':'
  }

  /** Unpacking the three parts of a code raises exactly when it has fewer than two colons. */
  lemma SplitNeedsTwoColons(code: string)
    ensures Split(code).Some? <==> HasTwoColons(code)
  {
    var i := FirstColon(code);
    if i < |code| {
      var rest := code[i + 1..];
      var j := FirstColon(rest);
      if j < |rest| {
        assert code[i] == ':' && code[i + 1 + j] == ':';
      }
      if HasTwoColons(code) {
        var a, b :| 0 <= a < b < |code| && code[a] == ':' && code[b] == ':';
        assert a >= i;
        assert rest[b - i - 1] == ':';
      }
    }
  }

  /** An id or the workplace is not a UUID, or the permission has fewer than two colons. */
  predicate IsUnreadable(a: Audience) {
    Unparsable in a.users ||
    (a.scope.Some? && a.scope.value.permission != "" &&
     (a.scope.value.workplace == Some(Unparsable) || !HasTwoColons(a.scope.value.permission)))
  }

  // ------------------------------------------------------------------------------------ the people addressed

  predicate IsNamed(a: Audience, user: Uuid) {
    Parsed(user) in a.users
  }

  predicate HasRoleWith(db: Tables, user: Uuid, code: string) {
    exists p <- db.userRoles :: p.0 == user && (p.1, code) in db.rolePermissions
  }

  /** A scope row that gives the code: its names, joined by colons, are the code, and no name before the last has one. */
  predicate RowGives(row: ScopeRow, code: string) {
    row.moduleName + ":" + row.resource + ":" + row.operation == code && ':' !in row.moduleName && ':' !in row.resource
  }

  /** A row for everything; or, at a workplace that exists, for its complex or for itself. */
  predicate RowCovers(db: Tables, row: ScopeRow, workplace: Option<Uuid>) {
    (workplace.Some? ==> workplace.value in db.workplaces) &&
    match row.level
    case Global => true
    case Complex => workplace.Some? && row.complexId == Some(db.workplaces[workplace.value])
    case Workplace => workplace.Some? && row.workplaceId == workplace
    case Unknown(_) => false
  }

  /** The user holds the audience's permission through a role and covers its workplace through a scope row. */
  predicate IsScoped(db: Tables, a: Audience, user: Uuid) {
    a.scope.Some? && a.scope.value.permission != "" && user in db.users && HasRoleWith(db, user, a.scope.value.permission) &&
    exists row <- db.scopeRows ::
      row.user == user && RowGives(row, a.scope.value.permission) &&
      (RowCoversNone(db, row, a.scope.value) || RowCoversWorkplace(db, row, a.scope.value))
  }

  predicate RowCoversNone(db: Tables, row: ScopeRow, scope: ScopeAudience) {
    scope.workplace.None? && RowCovers(db, row, None)
  }

  predicate RowCoversWorkplace(db: Tables, row: ScopeRow, scope: ScopeAudience) {
    scope.workplace.Some? && scope.workplace.value.Parsed? && RowCovers(db, row, Some(scope.workplace.value.id))
  }

  /** The account is there, active and not deleted, and the event is for it. */
  predicate IsAddressed(db: Tables, a: Audience, user: Uuid) {
    user in db.users && db.users[user].active && !db.users[user].deleted && !IsUnreadable(a) &&
    (IsNamed(a, user) || IsScoped(db, a, user))
  }

  // ------------------------------------------------------------------------------------ resolution

  lemma PartsAreTheCode(row: ScopeRow, code: string)
    requires Split(code).Some?
    ensures (row.moduleName, row.resource, row.operation) == Split(code).value <==> RowGives(row, code)
  {
    JoinUndoesSplit(code);
    if ':' !in row.moduleName && ':' !in row.resource {
      ComparisonsAgree(row.moduleName, row.resource, row.operation);
    }
  }

  /** Resolution raises exactly on an unreadable payload, whatever the directory. */
  lemma ResolutionFailsExactly(db: Tables, a: Audience)
    ensures Recipients(db, a).Failure? <==> IsUnreadable(a)
  {
    hide Split;
    if UsesScope(a) {
      SplitNeedsTwoColons(a.scope.value.permission);
    }
  }

  lemma ScopeHoldersAre(db: Tables, a: Audience, user: Uuid)
    requires UsesScope(a) && !IsUnreadable(a)
    ensures ScopeRecipients(db, a.scope.value).Success?
    ensures user in ScopeRecipients(db, a.scope.value).value <==> IsActive(db, user) && IsScoped(db, a, user)
  {
    hide Split, HasTwoColons, RowGives;
    var scope := a.scope.value;
    SplitNeedsTwoColons(scope.permission);
    forall row | row in db.scopeRows
      ensures (row.moduleName, row.resource, row.operation) == Split(scope.permission).value <==> RowGives(row, scope.permission)
    {
      PartsAreTheCode(row, scope.permission);
    }
  }

  /** The accounts a readable event is delivered to: the named ones and the scope holders, of those that are active. */
  lemma ActiveRecipientsAre(db: Tables, a: Audience, user: Uuid)
    ensures user in ActiveRecipients(db, a) <==> IsAddressed(db, a, user)
  {
    hide IsUnreadable, ScopeRecipients, IsScoped;
    ResolutionFailsExactly(db, a);
    if !IsUnreadable(a) {
      NamedAre(a, user);
      if UsesScope(a) {
        ScopeHoldersAre(db, a, user);
      } else {
        NoScopeNoHolder(db, a, user);
      }
    }
  }

  lemma NamedAre(a: Audience, user: Uuid)
    requires AllParsed(a.users)
    ensures user in Ids(a.users) <==> IsNamed(a, user)
  {
  }

  lemma NoScopeNoHolder(db: Tables, a: Audience, user: Uuid)
    ensures !UsesScope(a) ==> !IsScoped(db, a, user)
  {
  }

  // ------------------------------------------------------------------------------------ delivery

  predicate HasAddressee(db: Tables, a: Audience) {
    exists user <- db.users :: IsAddressed(db, a, user)
  }

  /**
   One delivery: an unknown type fails at once; an unreadable payload costs an attempt, the fifth being the last; and a
   readable one is delivered when anybody is addressed and skipped otherwise.
   */
  lemma DeliveryOutcome(e: Event, db: Tables)
    ensures var d := DeliveredEvent(e, db);
            && d.eventType == e.eventType && d.audience == e.audience
            && (e.eventType.Other? ==> d.status == Failed && d.attempts == e.attempts)
            && (!e.eventType.Other? && IsUnreadable(e.audience) ==>
                  d.attempts == e.attempts + 1 && d.status == if e.attempts >= 4 then Failed else Pending)
            && (!e.eventType.Other? && !IsUnreadable(e.audience) ==>
                  d.attempts == e.attempts && d.status == if HasAddressee(db, e.audience) then Delivered else Skipped)
  {
    hide IsUnreadable, ActiveRecipients, IsAddressed, Recipients;
    ResolutionFailsExactly(db, e.audience);
    AddresseeIsActive(db, e.audience);
  }

  lemma AddresseeIsActive(db: Tables, a: Audience)
    ensures ActiveRecipients(db, a) == {} <==> !HasAddressee(db, a)
  {
    hide ActiveRecipients, IsUnreadable, IsNamed, IsScoped;
    if user :| user in ActiveRecipients(db, a) {
      ActiveRecipientsAre(db, a, user);
    }
    if HasAddressee(db, a) {
      var user :| user in db.users && IsAddressed(db, a, user);
      ActiveRecipientsAre(db, a, user);
    }
  }

  /** The rows of a delivery are for the accounts addressed, and for nobody when the type is unknown. */
  lemma NotifiedAre(e: Event, db: Tables, user: Uuid)
    ensures user in NotifiedUsers(e, db) <==> !e.eventType.Other? && IsAddressed(db, e.audience, user)
  {
    hide ActiveRecipients, IsAddressed;
    ActiveRecipientsAre(db, e.audience, user);
  }

  // ------------------------------------------------------------------------------------ the claim

  ghost function PendingIds(events: seq<Event>): set<nat> {
    set i: nat | i < |events| && events[i].status == Pending
  }

  lemma {:induction false} PendingCountIsSize(events: seq<Event>)
    ensures PendingCount(events) == |PendingIds(events)|
  {
    if events == [] {
      assert PendingIds(events) == {};
    } else {
      var n := |events| - 1;
      PendingCountIsSize(events[..n]);
      assert PendingIds(events) == PendingIds(events[..n]) + if events[n].status == Pending then {n} else {};
    }
  }

  lemma {:induction false} ClaimedSoFar(events: seq<Event>, limit: nat, n: nat)
    requires n <= |events|
    ensures var ids := ClaimedFrom(events, limit, n);
            && |ids| == (if PendingCount(events[..n]) < limit then PendingCount(events[..n]) else limit)
            && forall j, k :: 0 <= j < k < |ids| ==> ids[j] < ids[k]
  {
    if n > 0 {
      ClaimedSoFar(events, limit, n - 1);
      assert events[..n][..n - 1] == events[..n - 1];
      var before := ClaimedFrom(events, limit, n - 1);
      forall k | 0 <= k < |before|
        ensures before[k] < n - 1
      {
        assert before[k] in before;
      }
    }
  }

  lemma {:induction false} PendingCountGrows(events: seq<Event>, i: nat, j: nat)
    requires i <= j <= |events|
    ensures PendingCount(events[..i]) <= PendingCount(events[..j])
    decreases j
  {
    if i < j {
      PendingCountGrows(events, i, j - 1);
      assert events[..j][..j - 1] == events[..j - 1];
    }
  }

  /** A claim takes as many pending events as the limit allows, in order, and none while an older one is left. */
  lemma ClaimIsOldestFirst(events: seq<Event>, limit: nat)
    ensures var ids := ClaimedFrom(events, limit, |events|);
            && |ids| == (if |PendingIds(events)| < limit then |PendingIds(events)| else limit)
            && (forall j, k :: 0 <= j < k < |ids| ==> ids[j] < ids[k])
            && (forall i <- ids :: i in PendingIds(events))
            && forall i <- ids, j: nat :: j < i && j in PendingIds(events) ==> j in ids
  {
    var ids := ClaimedFrom(events, limit, |events|);
    assert events[..|events|] == events;
    ClaimedSoFar(events, limit, |events|);
    PendingCountIsSize(events);
    forall i, j: nat | i in ids && j < i && j in PendingIds(events)
      ensures j in ids
    {
      PendingCountGrows(events, j, i);
    }
  }
}

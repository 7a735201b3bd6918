/**
 Every run of any number of relays and emitters over one outbox: claims, deliveries, commits, crashes, restarts and
 directory changes interleaved in any order. A relay's writes stay in its open transaction until it commits, and the
 events it claimed stay locked until then.
 */
module RelayRuns {
  import opened Wrappers
  import opened Directory
  import opened Outbox
  import Audiences

  /** One delivery inside an open transaction: the row it will write, its recipients, and the directory it read. */
  datatype Outcome = Outcome(event: Event, users: set<Uuid>, seen: Tables)

  /** A relay between two commits; results are the outcomes of the first claimed events. */
  datatype Tx = Tx(claimed: seq<nat>, results: seq<Outcome>)

  /**
   Committed state and open transactions. relayed and critical are history: the directory each relay delivery read,
   and the recipients each critical event was emitted with.
   */
  datatype System = System(
    db: Tables, events: seq<Event>, rows: multiset<Row>, open: map<nat, Tx>,
    relayed: map<nat, Tables>, critical: map<nat, set<Uuid>>)

  datatype Step =
    | ChangeDirectory(db: Tables)
    | Emit(eventType: EventType, audience: Audience)
    | EmitCritical(eventType: EventType, audience: Audience, recipients: seq<Uuid>)
    | Claim(relay: nat, ids: seq<nat>)
    | DeliverNext(relay: nat)
    | Commit(relay: nat)
    | Abort(relay: nat)
    | Restart(relay: nat)

  predicate IsLocked(s: System, i: nat) {
    exists relay <- s.open :: i in s.open[relay].claimed
  }

  predicate CanClaim(s: System, relay: nat, ids: seq<nat>) {
    relay !in s.open && NoDuplicates(ids) &&
    forall i <- ids :: i < |s.events| && s.events[i].status == Pending && !IsLocked(s, i)
  }

  /** Writing one outcome: the event's row, and notifications where they are missing. */
  function WithOutcome(s: System, i: nat, o: Outcome): System {
    if i >= |s.events| then s
    else s.(events := s.events[i := o.event], rows := InsertMissing(s.rows, i, o.users),
            relayed := if o.event.status == Delivered then s.relayed[i := o.seen] else s.relayed)
  }

  /** Writing the outcomes of the first n claimed events over the committed tables. */
  function Written(s: System, tx: Tx, n: nat): System
    requires n <= |tx.results| <= |tx.claimed|
  {
    if n == 0 then s else WithOutcome(Written(s, tx, n - 1), tx.claimed[n - 1], tx.results[n - 1])
  }

  /** A step that cannot be taken leaves the system as it is: the transaction that tried is rolled back. */
  function Next(s: System, step: Step): System {
    match step
    case ChangeDirectory(db) => s.(db := db)
    case Emit(eventType, audience) =>
      if eventType.Other? then s else s.(events := s.events + [Event(eventType, audience, Pending, 0)])
    case EmitCritical(eventType, audience, recipients) =>
      if eventType.Other? || !NoDuplicates(recipients) then s
      else
        var i := |s.events|;
        s.(events := s.events + [Event(eventType, audience, Delivered, 0)],
           rows := s.rows + NewRows(i, SetOf(recipients)), critical := s.critical[i := SetOf(recipients)])
    case Claim(relay, ids) =>
      if CanClaim(s, relay, ids) then s.(open := s.open[relay := Tx(ids, [])]) else s
    case DeliverNext(relay) =>
      if relay !in s.open || |s.open[relay].results| >= |s.open[relay].claimed| then s
      else
        var tx := s.open[relay];
        var i := tx.claimed[|tx.results|];
        if i >= |s.events| then s
        else
          var claimed := s.events[i].(status := Processing);
          var o := Outcome(DeliveredEvent(claimed, s.db), NotifiedUsers(claimed, s.db), s.db);
          s.(open := s.open[relay := tx.(results := tx.results + [o])])
    case Commit(relay) =>
      if relay !in s.open || |s.open[relay].results| != |s.open[relay].claimed| then s
      else Written(s, s.open[relay], |s.open[relay].results|).(open := s.open - {relay})
    case Abort(relay) => s.(open := s.open - {relay})
    case Restart(relay) => s.(open := s.open - {relay}, events := Reclaimed(s.events))
  }

  function Run(s: System, steps: seq<Step>): System {
    if steps == [] then s else Next(Run(s, steps[..|steps| - 1]), steps[|steps| - 1])
  }

  // ------------------------------------------------------------------------------------ the invariant

  predicate EventOk(e: Event) {
    e.status != Processing && e.attempts <= MAX_ATTEMPTS && (e.status == Pending ==> e.attempts < MAX_ATTEMPTS)
    && (e.attempts == MAX_ATTEMPTS ==> e.status == Failed) && !e.eventType.Other?
  }

  /** The rows of event i, as a set of users. */
  ghost predicate RowsAre(s: System, i: nat, users: set<Uuid>) {
    forall user: Uuid :: s.rows[(i, user)] == if user in users then 1 else 0
  }

  /** What event i's rows have to be, from how it was delivered. */
  ghost predicate RowsOk(s: System, i: nat)
    requires i < |s.events|
  {
    if s.events[i].status != Delivered then RowsAre(s, i, {}) && i !in s.relayed && i !in s.critical
    else if i in s.critical then RowsAre(s, i, s.critical[i]) && i !in s.relayed
    else i in s.relayed && Recipients(s.relayed[i], s.events[i].audience).Success? &&
         ActiveRecipients(s.relayed[i], s.events[i].audience) != {} &&
         RowsAre(s, i, ActiveRecipients(s.relayed[i], s.events[i].audience))
  }

  ghost predicate TablesOk(s: System) {
    && (forall i :: 0 <= i < |s.events| ==> EventOk(s.events[i]))
    && (forall i: nat :: i < |s.events| ==> RowsOk(s, i))
    && (forall i: nat :: i >= |s.events| ==> RowsAre(s, i, {}) && i !in s.relayed && i !in s.critical)
  }

  predicate TxOk(s: System, tx: Tx) {
    && NoDuplicates(tx.claimed) && |tx.results| <= |tx.claimed|
    && (forall i <- tx.claimed :: i < |s.events| && s.events[i].status == Pending)
    && (forall k :: 0 <= k < |tx.results| ==> OutcomeOk(s, tx.claimed[k], tx.results[k]))
  }

  /** The outcome follows from the event's committed row, which the lock has kept as it was when claimed. */
  predicate OutcomeOk(s: System, i: nat, o: Outcome) {
    i < |s.events| && o.event == DeliveredEvent(s.events[i], o.seen) && o.users == NotifiedUsers(s.events[i], o.seen)
  }

  predicate LocksOk(s: System) {
    && (forall relay <- s.open :: TxOk(s, s.open[relay]))
    && forall r <- s.open, q <- s.open, i :: i in s.open[r].claimed && i in s.open[q].claimed ==> r == q
  }

  ghost predicate Inv(s: System) {
    TablesOk(s) && LocksOk(s)
  }

  function Initial(db: Tables): System {
    System(db, [], multiset{}, map[], map[], map[])
  }

  // ------------------------------------------------------------------------------------ preservation

  /** A new event with its own rows changes nothing else. */
  lemma AppendingKeepsInv(s: System, t: System, e: Event)
    requires Inv(s) && EventOk(e) && t.open == s.open && t.relayed == s.relayed && t.events == s.events + [e]
    requires forall i: nat :: i != |s.events| ==>
               (i in t.critical <==> i in s.critical) && (i in s.critical ==> t.critical[i] == s.critical[i])
    requires forall row: Row :: row.0 != |s.events| ==> t.rows[row] == s.rows[row]
    requires RowsOk(t, |s.events|)
    ensures Inv(t)
  {
    forall i: nat | i < |t.events|
      ensures RowsOk(t, i) && EventOk(t.events[i])
    {
      if i < |s.events| {
        assert RowsOk(s, i) && EventOk(s.events[i]);
      }
    }
    forall i: nat | i >= |t.events|
      ensures RowsAre(t, i, {}) && i !in t.relayed && i !in t.critical
    {
      assert RowsAre(s, i, {});
    }
    forall relay | relay in t.open
      ensures TxOk(t, t.open[relay])
    {
      assert TxOk(s, s.open[relay]);
      forall k | 0 <= k < |t.open[relay].results|
        ensures OutcomeOk(t, t.open[relay].claimed[k], t.open[relay].results[k])
      {
        assert OutcomeOk(s, t.open[relay].claimed[k], t.open[relay].results[k]);
      }
    }
  }

  lemma EmitCriticalKeepsInv(s: System, eventType: EventType, audience: Audience, recipients: seq<Uuid>)
    requires Inv(s)
    ensures Inv(Next(s, EmitCritical(eventType, audience, recipients)))
  {
    var t := Next(s, EmitCritical(eventType, audience, recipients));
    if !eventType.Other? && NoDuplicates(recipients) {
      var i := |s.events|;
      assert RowsAre(s, i, {});
      forall row: Row
        ensures t.rows[row] == s.rows[row] + if row.0 == i && row.1 in SetOf(recipients) then 1 else 0
      {
        NewRowsCount(i, SetOf(recipients), row);
      }
      AppendingKeepsInv(s, t, Event(eventType, audience, Delivered, 0));
    }
  }

  /** Everything about event i is as it was. */
  ghost predicate SameAt(s: System, t: System, i: nat) {
    && |t.events| == |s.events| && t.open == s.open && t.critical == s.critical && t.db == s.db
    && (i < |s.events| ==> t.events[i] == s.events[i])
    && (i in t.relayed <==> i in s.relayed) && (i in s.relayed ==> t.relayed[i] == s.relayed[i])
    && forall user: Uuid :: t.rows[(i, user)] == s.rows[(i, user)]
  }

  lemma OutcomeFrame(s: System, j: nat, o: Outcome, i: nat)
    requires i != j
    ensures SameAt(s, WithOutcome(s, j, o), i)
  {
    forall user: Uuid
      ensures InsertMissing(s.rows, j, o.users)[(i, user)] == s.rows[(i, user)]
    {
      InsertMissingCounts(s.rows, j, o.users, (i, user));
    }
  }

  /** Writing outcomes touches the claimed events only. */
  lemma {:induction false} WrittenFrame(s: System, tx: Tx, n: nat, i: nat)
    requires n <= |tx.results| <= |tx.claimed| && i !in tx.claimed[..n]
    ensures SameAt(s, Written(s, tx, n), i)
  {
    hide WithOutcome;
    if n > 0 {
      assert tx.claimed[..n] == tx.claimed[..n - 1] + [tx.claimed[n - 1]];
      WrittenFrame(s, tx, n - 1, i);
      OutcomeFrame(Written(s, tx, n - 1), tx.claimed[n - 1], tx.results[n - 1], i);
    }
  }

  lemma DeliveryKeepsEventOk(e: Event, db: Tables)
    requires EventOk(e) && e.status == Pending
    ensures EventOk(DeliveredEvent(e, db))
    ensures DeliveredEvent(e, db).audience == e.audience
    ensures DeliveredEvent(e, db).status == Delivered <==> Recipients(db, e.audience).Success? && NotifiedUsers(e, db) != {}
    ensures DeliveredEvent(e, db).status != Delivered ==> NotifiedUsers(e, db) == {}
    ensures NotifiedUsers(e, db) == ActiveRecipients(db, e.audience)
  {
  }

  lemma SameAtKeepsRows(t: System, w: System, j: nat)
    requires SameAt(t, w, j)
    ensures j < |t.events| && RowsOk(t, j) ==> RowsOk(w, j)
    ensures RowsAre(t, j, {}) ==> RowsAre(w, j, {})
  {
    hide Recipients, ActiveRecipients;
  }

  /** The rows inserted for a claimed event are exactly its outcome's: nothing was there to conflict with. */
  lemma WriteFillsRows(t: System, i: nat, o: Outcome)
    requires i < |t.events| && RowsOk(t, i) && EventOk(t.events[i]) && t.events[i].status == Pending && OutcomeOk(t, i, o)
    ensures RowsOk(WithOutcome(t, i, o), i) && EventOk(o.event)
  {
    hide DeliveredEvent, NotifiedUsers, Recipients, ActiveRecipients;
    var w := WithOutcome(t, i, o);
    DeliveryKeepsEventOk(t.events[i], o.seen);
    forall user: Uuid
      ensures w.rows[(i, user)] == if user in o.users then 1 else 0
    {
      InsertMissingCounts(t.rows, i, o.users, (i, user));
    }
  }

  lemma WriteKeepsTables(t: System, i: nat, o: Outcome)
    requires TablesOk(t) && i < |t.events| && t.events[i].status == Pending && OutcomeOk(t, i, o)
    ensures TablesOk(WithOutcome(t, i, o))
  {
    hide RowsOk, RowsAre, SameAt, DeliveredEvent, NotifiedUsers, InsertMissing;
    var w := WithOutcome(t, i, o);
    WriteFillsRows(t, i, o);
    forall j: nat | j != i
      ensures j < |w.events| ==> RowsOk(w, j)
      ensures j >= |w.events| ==> RowsAre(w, j, {})
    {
      OutcomeFrame(t, i, o, j);
      SameAtKeepsRows(t, w, j);
    }
  }

  lemma NotInPrefix(ids: seq<nat>, n: nat)
    requires NoDuplicates(ids) && n < |ids|
    ensures ids[n] in ids && ids[n] !in ids[..n]
  {
  }

  lemma {:induction false} WrittenKeepsTables(s: System, tx: Tx, n: nat)
    requires TablesOk(s) && TxOk(s, tx) && n <= |tx.results|
    ensures TablesOk(Written(s, tx, n))
  {
    hide TablesOk, DeliveredEvent, NotifiedUsers, WithOutcome;
    if n > 0 {
      WrittenKeepsTables(s, tx, n - 1);
      var i := tx.claimed[n - 1];
      NotInPrefix(tx.claimed, n - 1);
      WrittenFrame(s, tx, n - 1, i);
      assert OutcomeOk(s, i, tx.results[n - 1]);
      WriteKeepsTables(Written(s, tx, n - 1), i, tx.results[n - 1]);
    }
  }

  lemma CommitKeepsInv(s: System, relay: nat)
    requires Inv(s)
    ensures Inv(Next(s, Commit(relay)))
  {
    if relay in s.open && |s.open[relay].results| == |s.open[relay].claimed| {
      var tx := s.open[relay];
      var w := Written(s, tx, |tx.results|);
      var t := Next(s, Commit(relay));
      assert tx.claimed[..|tx.results|] == tx.claimed;
      WrittenKeepsTables(s, tx, |tx.results|);
      TablesIgnoreTransactions(w, t);
      forall other | other in t.open
        ensures TxOk(t, t.open[other])
      {
        OtherTransactionIsUntouched(s, relay, other, t);
      }
    }
  }

  lemma OtherTransactionIsUntouched(s: System, relay: nat, other: nat, t: System)
    requires LocksOk(s) && relay in s.open && other in s.open && relay != other
    requires |s.open[relay].results| == |s.open[relay].claimed|
    requires t.events == Written(s, s.open[relay], |s.open[relay].results|).events
    ensures TxOk(t, s.open[other])
  {
    hide Written, DeliveredEvent, NotifiedUsers;
    var tx, mine := s.open[relay], s.open[other];
    var n := |tx.results|;
    assert TxOk(s, mine) && tx.claimed[..n] == tx.claimed;
    forall i | i in mine.claimed
      ensures i < |t.events| && t.events[i] == s.events[i]
    {
      assert i !in tx.claimed[..n];
      WrittenFrame(s, tx, n, i);
    }
    forall k | 0 <= k < |mine.results|
      ensures OutcomeOk(t, mine.claimed[k], mine.results[k])
    {
      assert OutcomeOk(s, mine.claimed[k], mine.results[k]) && mine.claimed[k] in mine.claimed;
    }
  }

  lemma TablesIgnoreTransactions(s: System, t: System)
    requires TablesOk(s) && t.events == s.events && t.rows == s.rows && t.relayed == s.relayed && t.critical == s.critical
    ensures TablesOk(t)
  {
    forall i: nat
      ensures if i < |t.events| then RowsOk(t, i) else RowsAre(t, i, {})
    {
      assert if i < |s.events| then RowsOk(s, i) else RowsAre(s, i, {});
    }
  }

  lemma NothingToReclaim(s: System)
    requires TablesOk(s)
    ensures Reclaimed(s.events) == s.events
  {
  }

  /** Changing the open transactions to good ones, and the directory to any, keeps the invariant. */
  lemma TransactionsKeepInv(s: System, t: System)
    requires Inv(s) && t.events == s.events && t.rows == s.rows && t.relayed == s.relayed && t.critical == s.critical
    requires forall relay <- t.open :: TxOk(s, t.open[relay])
    requires forall r <- t.open, q <- t.open, i :: i in t.open[r].claimed && i in t.open[q].claimed ==> r == q
    ensures Inv(t)
  {
    TablesIgnoreTransactions(s, t);
    forall relay | relay in t.open
      ensures TxOk(t, t.open[relay])
    {
      forall k | 0 <= k < |t.open[relay].results|
        ensures OutcomeOk(t, t.open[relay].claimed[k], t.open[relay].results[k])
      {
        assert OutcomeOk(s, t.open[relay].claimed[k], t.open[relay].results[k]);
      }
    }
  }

  lemma DeliverNextKeepsInv(s: System, relay: nat)
    requires Inv(s)
    ensures Inv(Next(s, DeliverNext(relay)))
  {
    if relay in s.open && |s.open[relay].results| < |s.open[relay].claimed| {
      var tx := s.open[relay];
      var t := Next(s, DeliverNext(relay));
      assert TxOk(s, tx);
      var i := tx.claimed[|tx.results|];
      assert i in tx.claimed;
      ClaimIsInvisible(s.events[i], s.db);
      assert TxOk(s, t.open[relay]);
      TransactionsKeepInv(s, t);
    }
  }

  lemma EmitKeepsInv(s: System, eventType: EventType, audience: Audience)
    requires Inv(s)
    ensures Inv(Next(s, Emit(eventType, audience)))
  {
    hide Recipients, ActiveRecipients;
    if !eventType.Other? {
      assert RowsAre(s, |s.events|, {});
      AppendingKeepsInv(s, Next(s, Emit(eventType, audience)), Event(eventType, audience, Pending, 0));
    }
  }

  lemma ClaimKeepsInv(s: System, relay: nat, ids: seq<nat>)
    requires Inv(s)
    ensures Inv(Next(s, Claim(relay, ids)))
  {
    hide TablesOk, OutcomeOk;
    TransactionsKeepInv(s, Next(s, Claim(relay, ids)));
  }

  /** Dropping a transaction, as an abort and a restart do. */
  lemma DropKeepsInv(s: System, relay: nat)
    requires Inv(s)
    ensures Inv(Next(s, Abort(relay))) && Next(s, Restart(relay)) == Next(s, Abort(relay))
  {
    hide RowsOk, RowsAre, OutcomeOk;
    NothingToReclaim(s);
    TransactionsKeepInv(s, Next(s, Abort(relay)));
  }

  lemma ChangeKeepsInv(s: System, db: Tables)
    requires Inv(s)
    ensures Inv(Next(s, ChangeDirectory(db)))
  {
    hide TablesOk, OutcomeOk;
    TransactionsKeepInv(s, Next(s, ChangeDirectory(db)));
  }

  /** Every step keeps the invariant. */
  lemma StepKeepsInv(s: System, step: Step)
    requires Inv(s)
    ensures Inv(Next(s, step))
  {
    hide Next, Inv;
    match step
    case ChangeDirectory(db) => ChangeKeepsInv(s, db);
    case Emit(eventType, audience) => EmitKeepsInv(s, eventType, audience);
    case EmitCritical(eventType, audience, recipients) => EmitCriticalKeepsInv(s, eventType, audience, recipients);
    case Claim(relay, ids) => ClaimKeepsInv(s, relay, ids);
    case DeliverNext(relay) => DeliverNextKeepsInv(s, relay);
    case Commit(relay) => CommitKeepsInv(s, relay);
    case Abort(relay) => DropKeepsInv(s, relay);
    case Restart(relay) => DropKeepsInv(s, relay);
  }

  lemma {:induction false} RunKeepsInv(db: Tables, steps: seq<Step>)
    ensures Inv(Run(Initial(db), steps))
  {
    if steps != [] {
      RunKeepsInv(db, steps[..|steps| - 1]);
      StepKeepsInv(Run(Initial(db), steps[..|steps| - 1]), steps[|steps| - 1]);
    }
  }

  // ------------------------------------------------------------------------------------ what every run promises

  /** At most one notification exists per event and user, and only for delivered events. */
  lemma ExactlyOnce(db: Tables, steps: seq<Step>, i: nat, user: Uuid)
    ensures var s := Run(Initial(db), steps);
            s.rows[(i, user)] <= 1 &&
            (s.rows[(i, user)] == 1 ==> i < |s.events| && s.events[i].status == Delivered)
  {
    var s := Run(Initial(db), steps);
    RunKeepsInv(db, steps);
    if i < |s.events| {
      assert RowsOk(s, i);
    } else {
      assert RowsAre(s, i, {});
    }
  }

  /**
   The rows of a delivered event: for a relay, of exactly the accounts that the event addresses by the tables it read;
   for a critical event, of exactly the emitter's list.
   */
  lemma DeliveredRowsAreExact(db: Tables, steps: seq<Step>, i: nat, user: Uuid)
    requires var s := Run(Initial(db), steps); i < |s.events| && s.events[i].status == Delivered
    ensures var s := Run(Initial(db), steps);
            (i in s.relayed <==> i !in s.critical) &&
            ((i, user) in s.rows <==> if i in s.critical then user in s.critical[i]
                                      else Audiences.IsAddressed(s.relayed[i], s.events[i].audience, user))
  {
    hide Audiences.IsAddressed, Recipients, ActiveRecipients;
    var s := Run(Initial(db), steps);
    RunKeepsInv(db, steps);
    assert RowsOk(s, i);
    if i !in s.critical {
      Audiences.ActiveRecipientsAre(s.relayed[i], s.events[i].audience, user);
    }
  }

  /** No committed event is ever `processing`, and attempts are bounded: below 5 while pending, 5 only when failed. */
  lemma AttemptsAreBounded(db: Tables, steps: seq<Step>, i: nat)
    requires i < |Run(Initial(db), steps).events|
    ensures var e := Run(Initial(db), steps).events[i];
            e.status != Processing && e.attempts <= MAX_ATTEMPTS &&
            (e.status == Pending ==> e.attempts < MAX_ATTEMPTS) && (e.attempts == MAX_ATTEMPTS ==> e.status == Failed)
  {
    RunKeepsInv(db, steps);
  }

  /** A start-up reclaim finds nothing: it never takes an event that another relay holds. */
  lemma RestartTakesNothing(db: Tables, steps: seq<Step>, relay: nat)
    ensures var s := Run(Initial(db), steps);
            Next(s, Restart(relay)).events == s.events &&
            forall other <- s.open :: other != relay ==> other in Next(s, Restart(relay)).open && Next(s, Restart(relay)).open[other] == s.open[other]
  {
    RunKeepsInv(db, steps);
    NothingToReclaim(Run(Initial(db), steps));
  }

  /** Delivered, failed and skipped events never change again, nor do their rows. */
  lemma TerminalStep(s: System, step: Step, i: nat)
    requires Inv(s) && i < |s.events| && IsTerminal(s.events[i].status)
    ensures var t := Next(s, step);
            i < |t.events| && t.events[i] == s.events[i] && forall user: Uuid :: t.rows[(i, user)] == s.rows[(i, user)]
  {
    match step
    case EmitCritical(eventType, audience, recipients) =>
      forall user: Uuid
        ensures NewRows(|s.events|, SetOf(recipients))[(i, user)] == 0
      {
        NewRowsCount(|s.events|, SetOf(recipients), (i, user));
      }
    case Commit(relay) =>
      if relay in s.open && |s.open[relay].results| == |s.open[relay].claimed| {
        var tx := s.open[relay];
        assert TxOk(s, tx) && tx.claimed[..|tx.results|] == tx.claimed;
        WrittenFrame(s, tx, |tx.results|, i);
      }
    case Restart(_) =>
      NothingToReclaim(s);
    case _ =>
  }

  lemma {:induction false} TerminalIsForever(db: Tables, steps: seq<Step>, more: seq<Step>, i: nat)
    requires var s := Run(Initial(db), steps); i < |s.events| && IsTerminal(s.events[i].status)
    ensures var s, t := Run(Initial(db), steps), Run(Initial(db), steps + more);
            i < |t.events| && t.events[i] == s.events[i] && forall user: Uuid :: t.rows[(i, user)] == s.rows[(i, user)]
    decreases |more|
  {
    hide Next, Inv, Initial, IsTerminal;
    if more == [] {
      assert steps + more == steps;
    } else {
      var n := |more| - 1;
      TerminalIsForever(db, steps, more[..n], i);
      RunKeepsInv(db, steps + more[..n]);
      TerminalStep(Run(Initial(db), steps + more[..n]), more[n], i);
      assert (steps + more)[..|steps + more| - 1] == steps + more[..n];
    }
  }

  /** The state admits a delivery of event i that reads the directory `seen`: the event is pending and claimed. */
  predicate CouldRead(s: System, i: nat, seen: Tables) {
    s.db == seen && i < |s.events| && s.events[i].status == Pending && IsLocked(s, i)
  }

  /** At some moment of the run event i was claimed and `seen` was the directory in force. */
  ghost predicate WasReadWhileClaimed(db: Tables, steps: seq<Step>, i: nat, seen: Tables) {
    exists k: nat :: k <= |steps| && CouldRead(Run(Initial(db), steps[..k]), i, seen)
  }

  lemma WasReadBefore(db: Tables, steps: seq<Step>, i: nat, seen: Tables)
    requires steps != [] && WasReadWhileClaimed(db, steps[..|steps| - 1], i, seen)
    ensures WasReadWhileClaimed(db, steps, i, seen)
  {
    hide CouldRead;
    var k: nat :| k <= |steps| - 1 && CouldRead(Run(Initial(db), steps[..|steps| - 1][..k]), i, seen);
    assert steps[..|steps| - 1][..k] == steps[..k];
  }

  /** An open transaction holds a delivery of event i made under the directory `seen`. */
  predicate HoldsDelivery(s: System, i: nat, seen: Tables) {
    exists relay <- s.open :: TxHoldsDelivery(s.open[relay], i, seen)
  }

  predicate TxHoldsDelivery(tx: Tx, i: nat, seen: Tables) {
    exists k :: 0 <= k < |tx.results| && k < |tx.claimed| && tx.claimed[k] == i && tx.results[k].seen == seen
  }

  /** A delivery of event i under the directory `seen` is committed or held open. */
  predicate Attests(s: System, i: nat, seen: Tables) {
    (i in s.relayed && s.relayed[i] == seen) || HoldsDelivery(s, i, seen)
  }

  lemma {:induction false} WrittenAttests(s: System, tx: Tx, n: nat, i: nat)
    requires n <= |tx.results| <= |tx.claimed| && i in Written(s, tx, n).relayed
    ensures (i in s.relayed && Written(s, tx, n).relayed[i] == s.relayed[i]) || TxHoldsDelivery(tx, i, Written(s, tx, n).relayed[i])
  {
    hide InsertMissing;
    if n > 0 {
      if i in Written(s, tx, n - 1).relayed {
        WrittenAttests(s, tx, n - 1, i);
      }
    }
  }

  lemma CommitAttestsNothingNew(s: System, relay: nat, i: nat, seen: Tables)
    requires Attests(Next(s, Commit(relay)), i, seen)
    ensures Attests(s, i, seen)
  {
    hide Written, TxHoldsDelivery;
    if relay in s.open && |s.open[relay].results| == |s.open[relay].claimed| {
      var tx := s.open[relay];
      WrittenKeepsShape(s, tx, |tx.results|);
      if i in Next(s, Commit(relay)).relayed {
        WrittenAttests(s, tx, |tx.results|, i);
      }
    }
  }

  lemma DeliveryIsReadNow(s: System, relay: nat, i: nat, seen: Tables)
    requires LocksOk(s) && Attests(Next(s, DeliverNext(relay)), i, seen)
    ensures Attests(s, i, seen) || CouldRead(s, i, seen)
  {
    hide DeliveredEvent, NotifiedUsers;
    var t := Next(s, DeliverNext(relay));
    if t != s && HoldsDelivery(t, i, seen) {
      var holder :| holder in t.open && TxHoldsDelivery(t.open[holder], i, seen);
      if holder == relay {
        assert TxOk(s, s.open[relay]);
        var k :| 0 <= k < |t.open[relay].results| && t.open[relay].claimed[k] == i && t.open[relay].results[k].seen == seen;
        if k < |s.open[relay].results| {
          assert TxHoldsDelivery(s.open[relay], i, seen);
        } else {
          assert i in s.open[relay].claimed;
        }
      }
    }
  }

  /** Deliveries only come about while their event is claimed, under the directory of that moment. */
  lemma NothingElseIsAttested(s: System, step: Step, i: nat, seen: Tables)
    requires LocksOk(s) && Attests(Next(s, step), i, seen)
    ensures Attests(s, i, seen) || CouldRead(s, i, seen)
  {
    hide Written, DeliveredEvent, NotifiedUsers, TxOk;
    match step
    case Commit(relay) => CommitAttestsNothingNew(s, relay, i, seen);
    case DeliverNext(relay) => DeliveryIsReadNow(s, relay, i, seen);
    case _ =>
  }

  lemma {:induction false} AttestedWasRead(db: Tables, steps: seq<Step>, i: nat, seen: Tables)
    requires Attests(Run(Initial(db), steps), i, seen)
    ensures WasReadWhileClaimed(db, steps, i, seen)
  {
    hide Next, CouldRead, Inv;
    if steps == [] {
      NothingAttestedAtFirst(db, i, seen);
    } else {
      var n := |steps| - 1;
      var s := Run(Initial(db), steps[..n]);
      RunKeepsInv(db, steps[..n]);
      InvLocks(s);
      NothingElseIsAttested(s, steps[n], i, seen);
      if CouldRead(s, i, seen) {
        assert CouldRead(Run(Initial(db), steps[..n]), i, seen);
      } else {
        AttestedWasRead(db, steps[..n], i, seen);
        WasReadBefore(db, steps, i, seen);
      }
    }
  }

  lemma NothingAttestedAtFirst(db: Tables, i: nat, seen: Tables)
    ensures !Attests(Initial(db), i, seen)
  {
  }

  lemma InvLocks(s: System)
    requires Inv(s)
    ensures LocksOk(s)
  {
  }

  /** The directory that a relay's delivery is judged by was in force while the event was pending and claimed. */
  lemma DeliveriesReadRealDirectories(db: Tables, steps: seq<Step>, i: nat)
    requires i in Run(Initial(db), steps).relayed
    ensures WasReadWhileClaimed(db, steps, i, Run(Initial(db), steps).relayed[i])
  {
    hide WasReadWhileClaimed, Run;
    AttestedWasRead(db, steps, i, Run(Initial(db), steps).relayed[i]);
  }

  lemma {:induction false} WrittenKeepsShape(s: System, tx: Tx, n: nat)
    requires n <= |tx.results| <= |tx.claimed|
    ensures Written(s, tx, n).open == s.open && Written(s, tx, n).db == s.db
    ensures |Written(s, tx, n).events| == |s.events|
  {
    hide InsertMissing;
    if n > 0 {
      WrittenKeepsShape(s, tx, n - 1);
    }
  }

  // ------------------------------------------------------------------------------------ an undisturbed poll

  function Deliveries(relay: nat, n: nat): seq<Step> {
    seq(n, _ => DeliverNext(relay))
  }

  function OutcomeOf(s: System, i: nat): Outcome
    requires i < |s.events|
  {
    Outcome(DeliveredEvent(s.events[i], s.db), NotifiedUsers(s.events[i], s.db), s.db)
  }

  predicate Exist(s: System, ids: seq<nat>) {
    forall i <- ids :: i < |s.events|
  }

  function Outcomes(s: System, ids: seq<nat>): seq<Outcome>
    requires Exist(s, ids)
  {
    seq(|ids|, k requires 0 <= k < |ids| => assert ids[k] in ids; OutcomeOf(s, ids[k]))
  }

  /** The claim, and n deliveries after it. */
  lemma {:induction false} AfterDeliveries(s: System, relay: nat, ids: seq<nat>, n: nat)
    requires n <= |ids| && CanClaim(s, relay, ids)
    ensures Exist(s, ids[..n])
    ensures Run(Next(s, Claim(relay, ids)), Deliveries(relay, n)) == s.(open := s.open[relay := Tx(ids, Outcomes(s, ids[..n]))])
  {
    hide Next, DeliveredEvent, NotifiedUsers, CanClaim;
    ClaimedExist(s, relay, ids, n);
    if n == 0 {
      assert Outcomes(s, ids[..0]) == [];
      ClaimStep(s, relay, ids);
    } else {
      AfterDeliveries(s, relay, ids, n - 1);
      assert Deliveries(relay, n)[..n - 1] == Deliveries(relay, n - 1);
      DeliverStep(s, relay, ids, n);
    }
  }

  lemma ClaimedExist(s: System, relay: nat, ids: seq<nat>, n: nat)
    requires n <= |ids| && CanClaim(s, relay, ids)
    ensures Exist(s, ids[..n])
  {
    forall i | i in ids[..n]
      ensures i < |s.events|
    {
      assert i in ids;
    }
  }

  lemma ClaimStep(s: System, relay: nat, ids: seq<nat>)
    requires CanClaim(s, relay, ids)
    ensures Next(s, Claim(relay, ids)) == s.(open := s.open[relay := Tx(ids, [])])
  {
  }

  lemma DeliverStep(s: System, relay: nat, ids: seq<nat>, n: nat)
    requires 0 < n <= |ids| && CanClaim(s, relay, ids)
    ensures Exist(s, ids[..n]) && Exist(s, ids[..n - 1])
    ensures Next(s.(open := s.open[relay := Tx(ids, Outcomes(s, ids[..n - 1]))]), DeliverNext(relay))
            == s.(open := s.open[relay := Tx(ids, Outcomes(s, ids[..n]))])
  {
    hide DeliveredEvent, NotifiedUsers;
    ClaimedExist(s, relay, ids, n);
    ClaimedExist(s, relay, ids, n - 1);
    var i := ids[n - 1];
    assert i in ids;
    ClaimIsInvisible(s.events[i], s.db);
    assert Outcomes(s, ids[..n]) == Outcomes(s, ids[..n - 1]) + [OutcomeOf(s, i)];
    assert s.open[relay := Tx(ids, Outcomes(s, ids[..n - 1]))][relay := Tx(ids, Outcomes(s, ids[..n]))]
           == s.open[relay := Tx(ids, Outcomes(s, ids[..n]))];
  }

  lemma OutcomeAt(s: System, i: nat, o: Outcome, row: Row)
    requires i < |s.events|
    ensures WithOutcome(s, i, o).events == s.events[i := o.event]
    ensures WithOutcome(s, i, o).rows[row] == if row.0 == i && row.1 in o.users && s.rows[row] == 0 then 1 else s.rows[row]
  {
    InsertMissingCounts(s.rows, i, o.users, row);
  }

  /** A claimed event, and its rows, after the write. */
  lemma {:induction false} WrittenAt(s: System, tx: Tx, n: nat, k: nat, user: Uuid)
    requires k < n <= |tx.results| <= |tx.claimed| && NoDuplicates(tx.claimed) && tx.claimed[k] < |s.events|
    ensures var t, i, o := Written(s, tx, n), tx.claimed[k], tx.results[k];
            |t.events| == |s.events| && t.events[i] == o.event &&
            t.rows[(i, user)] == if user in o.users && s.rows[(i, user)] == 0 then 1 else s.rows[(i, user)]
  {
    hide WithOutcome;
    var i := tx.claimed[k];
    if k == n - 1 {
      assert i !in tx.claimed[..k];
      WrittenFrame(s, tx, k, i);
      OutcomeAt(Written(s, tx, k), i, tx.results[k], (i, user));
    } else {
      WrittenAt(s, tx, n - 1, k, user);
      OutcomeFrame(Written(s, tx, n - 1), tx.claimed[n - 1], tx.results[n - 1], i);
    }
  }

  lemma WrittenIsPolled(s: System, limit: nat, tx: Tx, i: nat, user: Uuid)
    requires tx.claimed == ClaimedFrom(s.events, limit, |s.events|) && Exist(s, tx.claimed)
    requires tx.results == Outcomes(s, tx.claimed) && i < |s.events|
    ensures var t := Written(s, tx, |tx.claimed|);
            && |t.events| == |s.events| && t.events[i] == Polled(s.events, limit, s.db)[i]
            && t.rows[(i, user)] == PolledCount(s.events, s.rows, limit, s.db, (i, user))
  {
    hide DeliveredEvent, NotifiedUsers, Written, IsClaimed;
    var ids, n := tx.claimed, |tx.claimed|;
    assert ids[..n] == ids;
    if IsClaimed(s.events, limit, i) {
      var k :| 0 <= k < n && ids[k] == i;
      WrittenAt(s, tx, n, k, user);
    } else {
      WrittenFrame(s, tx, n, i);
    }
  }

  /** The steps of one relay that make up a poll. */
  function PollSteps(s: System, relay: nat, limit: nat): seq<Step> {
    var ids := ClaimedFrom(s.events, limit, |s.events|);
    [Claim(relay, ids)] + Deliveries(relay, |ids|) + [Commit(relay)]
  }

  lemma {:induction false} RunInTwo(s: System, a: seq<Step>, b: seq<Step>)
    ensures Run(s, a + b) == Run(Run(s, a), b)
    decreases |b|
  {
    hide Next;
    if b == [] {
      assert a + b == a;
    } else {
      RunInTwo(s, a, b[..|b| - 1]);
      assert (a + b)[..|a + b| - 1] == a + b[..|b| - 1];
    }
  }

  lemma OneStep(s: System, step: Step)
    ensures Run(s, [step]) == Next(s, step)
  {
    hide Next;
    assert [step][..0] == [];
  }

  lemma PollInThree(s: System, relay: nat, limit: nat)
    ensures var ids := ClaimedFrom(s.events, limit, |s.events|);
            Run(s, PollSteps(s, relay, limit)) == Next(Run(Next(s, Claim(relay, ids)), Deliveries(relay, |ids|)), Commit(relay))
  {
    hide Next, Run;
    var ids := ClaimedFrom(s.events, limit, |s.events|);
    RunInTwo(s, [Claim(relay, ids)] + Deliveries(relay, |ids|), [Commit(relay)]);
    RunInTwo(s, [Claim(relay, ids)], Deliveries(relay, |ids|));
    OneStep(s, Claim(relay, ids));
    OneStep(Run(Next(s, Claim(relay, ids)), Deliveries(relay, |ids|)), Commit(relay));
  }

  lemma SelectionCanBeClaimed(s: System, relay: nat, limit: nat)
    requires s.open == map[]
    ensures CanClaim(s, relay, ClaimedFrom(s.events, limit, |s.events|))
  {
  }

  /** With nobody else in the way, the steps of one relay add up to the poll the session performs. */
  lemma UndisturbedPoll(s: System, relay: nat, limit: nat)
    requires s.open == map[]
    ensures var t := Run(s, PollSteps(s, relay, limit));
            && t.events == Polled(s.events, limit, s.db) && t.open == map[] && t.db == s.db
            && forall i: nat, user: Uuid :: i < |s.events| ==>
                 t.rows[(i, user)] == PolledCount(s.events, s.rows, limit, s.db, (i, user))
  {
    hide DeliveredEvent, NotifiedUsers, Written, PolledCount, Run, PollSteps, IsClaimed;
    var ids := ClaimedFrom(s.events, limit, |s.events|);
    PollInThree(s, relay, limit);
    SelectionCanBeClaimed(s, relay, limit);
    AfterDeliveries(s, relay, ids, |ids|);
    assert ids[..|ids|] == ids;
    var tx := Tx(ids, Outcomes(s, ids));
    var t := s.(open := s.open[relay := tx]);
    assert t.open[relay] == tx;
    assert Outcomes(t, ids) == Outcomes(s, ids);
    WrittenKeepsShape(t, tx, |ids|);
    forall i: nat, user: Uuid | i < |s.events|
      ensures Written(t, tx, |ids|).rows[(i, user)] == PolledCount(s.events, s.rows, limit, s.db, (i, user))
    {
      WrittenIsPolled(t, limit, tx, i, user);
    }
    var anyone: Uuid := "0";
    forall i | 0 <= i < |s.events|
      ensures Written(t, tx, |ids|).events[i] == Polled(s.events, limit, s.db)[i]
    {
      WrittenIsPolled(t, limit, tx, i, anyone);
    }
    assert Written(t, tx, |ids|).events == Polled(s.events, limit, s.db);
    assert t.open - {relay} == map[];
  }
}

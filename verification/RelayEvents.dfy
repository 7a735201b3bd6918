/** Where the events and the rows of a run come from: each event from one emitter, each row from its delivery. */
module RelayEvents {
  import opened Wrappers
  import opened Directory
  import opened Outbox
  import opened RelayRuns
  import Audiences

  /** Nobody changes what an event is about, nor the recipients it was emitted with. */
  predicate IsSameEvent(s: System, t: System, i: nat)
    requires i < |s.events|
  {
    && i < |t.events| && t.events[i].eventType == s.events[i].eventType && t.events[i].audience == s.events[i].audience
    && (i in t.critical <==> i in s.critical) && (i in s.critical ==> t.critical[i] == s.critical[i])
  }

  lemma {:induction false} WrittenKeepsEvent(s: System, tx: Tx, n: nat, i: nat)
    requires TxOk(s, tx) && n <= |tx.results| && i < |s.events|
    ensures IsSameEvent(s, Written(s, tx, n), i)
  {
    hide InsertMissing, DeliveredEvent, NotifiedUsers;
    if n > 0 {
      WrittenKeepsEvent(s, tx, n - 1, i);
      assert OutcomeOk(s, tx.claimed[n - 1], tx.results[n - 1]);
      Audiences.DeliveryOutcome(s.events[tx.claimed[n - 1]], tx.results[n - 1].seen);
    }
  }

  lemma StepKeepsEvent(s: System, step: Step, i: nat)
    requires Inv(s) && i < |s.events|
    ensures IsSameEvent(s, Next(s, step), i)
  {
    hide Written, TablesOk, TxOk, DeliveredEvent, NotifiedUsers, NewRows;
    if step.Commit? && step.relay in s.open && |s.open[step.relay].results| == |s.open[step.relay].claimed| {
      WrittenKeepsEvent(s, s.open[step.relay], |s.open[step.relay].results|, i);
    }
  }

  /** Step k of the run emitted event i: with its type and audience, and its recipients when it was critical. */
  ghost predicate WasEmittedAt(db: Tables, steps: seq<Step>, i: nat, k: nat)
    requires i < |Run(Initial(db), steps).events| && k < |steps|
  {
    var s := Run(Initial(db), steps);
    |Run(Initial(db), steps[..k]).events| == i &&
    if i in s.critical then
      steps[k].EmitCritical? && steps[k].eventType == s.events[i].eventType && steps[k].audience == s.events[i].audience &&
      forall user: Uuid :: user in s.critical[i] <==> user in steps[k].recipients
    else steps[k] == Emit(s.events[i].eventType, s.events[i].audience)
  }

  lemma WasEmittedBefore(db: Tables, steps: seq<Step>, i: nat, k: nat)
    requires steps != [] && i < |Run(Initial(db), steps[..|steps| - 1]).events| && k < |steps| - 1
    requires WasEmittedAt(db, steps[..|steps| - 1], i, k)
    ensures i < |Run(Initial(db), steps).events| && WasEmittedAt(db, steps, i, k)
  {
    hide Next, Inv;
    var n := |steps| - 1;
    RunKeepsInv(db, steps[..n]);
    StepKeepsEvent(Run(Initial(db), steps[..n]), steps[n], i);
    assert steps[..n][..k] == steps[..k] && steps[..n][k] == steps[k];
  }

  lemma StepEmits(s: System, step: Step)
    requires Inv(s) && |Next(s, step).events| > |s.events|
    ensures var t, n := Next(s, step), |s.events|;
            |t.events| == n + 1 &&
            if n in t.critical then
              step.EmitCritical? && step.eventType == t.events[n].eventType && step.audience == t.events[n].audience &&
              forall user: Uuid :: user in t.critical[n] <==> user in step.recipients
            else step == Emit(t.events[n].eventType, t.events[n].audience)
  {
    hide Written, RowsOk, RowsAre, TxOk;
    if step.Commit? && step.relay in s.open {
      assert TxOk(s, s.open[step.relay]);
      TxIsShaped(s, s.open[step.relay]);
      WrittenKeepsShape(s, s.open[step.relay], |s.open[step.relay].results|);
    }
  }

  lemma TxIsShaped(s: System, tx: Tx)
    requires TxOk(s, tx)
    ensures |tx.results| <= |tx.claimed|
  {
  }

  /** Every event was emitted by one step of the run, and is still about what it was then. */
  lemma {:induction false} EventsAreEmitted(db: Tables, steps: seq<Step>, i: nat) returns (k: nat)
    requires i < |Run(Initial(db), steps).events|
    ensures k < |steps| && WasEmittedAt(db, steps, i, k)
  {
    hide Next, Inv, WasEmittedAt;
    var n := |steps| - 1;
    NothingAtFirst(db);
    assert steps != [];
    var s := Run(Initial(db), steps[..n]);
    if i < |s.events| {
      k := EventsAreEmitted(db, steps[..n], i);
      WasEmittedBefore(db, steps, i, k);
    } else {
      k := n;
      WasEmittedLast(db, steps, i);
    }
  }

  lemma NothingAtFirst(db: Tables)
    ensures Run(Initial(db), []).events == []
  {
  }

  lemma WasEmittedLast(db: Tables, steps: seq<Step>, i: nat)
    requires steps != [] && |Run(Initial(db), steps[..|steps| - 1]).events| <= i < |Run(Initial(db), steps).events|
    ensures WasEmittedAt(db, steps, i, |steps| - 1)
  {
    hide Next, Inv;
    RunKeepsInv(db, steps[..|steps| - 1]);
    StepEmits(Run(Initial(db), steps[..|steps| - 1]), steps[|steps| - 1]);
  }

  // ------------------------------------------------------------------------------------ what a step makes possible

  /** An event just emitted is nobody's: any idle relay can claim it at once. */
  lemma EmissionCanBeClaimed(s: System, eventType: EventType, audience: Audience, relay: nat)
    requires Inv(s) && !eventType.Other? && relay !in s.open
    ensures var t := Next(s, Emit(eventType, audience));
            t.events == s.events + [Event(eventType, audience, Pending, 0)] && t.rows == s.rows && t.open == s.open &&
            Next(t, Claim(relay, [|s.events|])).open == s.open[relay := Tx([|s.events|], [])]
  {
    hide TablesOk;
    var t := Next(s, Emit(eventType, audience));
    forall other | other in t.open
      ensures |s.events| !in t.open[other].claimed
    {
      assert TxOk(s, s.open[other]);
    }
  }

  /** A critical event arrives delivered, with one row for each recipient, or changes nothing. */
  lemma CriticalEmissionEffect(s: System, eventType: EventType, audience: Audience, recipients: seq<Uuid>, row: Row)
    requires Inv(s)
    ensures var t := Next(s, EmitCritical(eventType, audience, recipients));
            if eventType.Other? || exists i, j :: 0 <= i < j < |recipients| && recipients[i] == recipients[j] then t == s
            else t.events == s.events + [Event(eventType, audience, Delivered, 0)] &&
                 t.rows[row] == if row.0 == |s.events| then (if row.1 in recipients then 1 else 0) else s.rows[row]
  {
    NewRowsCount(|s.events|, SetOf(recipients), row);
    assert RowsAre(s, |s.events|, {});
  }

  /** What a relay had claimed is free again after its crash or restart: any idle relay can claim the same batch. */
  lemma RollbackFreesClaims(s: System, relay: nat, other: nat, step: Step)
    requires Inv(s) && relay in s.open && (other == relay || other !in s.open)
    requires step == Abort(relay) || step == Restart(relay)
    ensures var t := Next(s, step);
            t.events == s.events && t.rows == s.rows &&
            Next(t, Claim(other, s.open[relay].claimed)).open == (s.open - {relay})[other := Tx(s.open[relay].claimed, [])]
  {
    hide RowsOk, RowsAre;
    NothingToReclaim(s);
    var t, ids := Next(s, step), s.open[relay].claimed;
    assert TxOk(s, s.open[relay]);
    forall i, q | i in ids && q in t.open
      ensures i !in t.open[q].claimed
    {
      assert q in s.open;
    }
  }
}

/**
 How fast one relay empties the outbox. A retried event keeps its place at the head of the queue, so a batch full of
 failing events delays the rest, but only for a bounded number of polls.
 */
module Draining {
  import opened Wrappers
  import opened Directory
  import opened Outbox
  import opened RelayRuns

  /** Deliveries an event can still absorb before it is terminal. */
  function Left(e: Event): int {
    if e.status == Pending then MAX_ATTEMPTS - e.attempts else 0
  }

  function TotalLeft(events: seq<Event>): int {
    if events == [] then 0 else TotalLeft(events[..|events| - 1]) + Left(events[|events| - 1])
  }

  predicate QueueOk(events: seq<Event>) {
    forall e <- events :: EventOk(e)
  }

  predicate AllWithin(events: seq<Event>, bound: int) {
    forall e <- events :: Left(e) <= bound
  }

  function Min(a: nat, b: nat): nat {
    if a < b then a else b
  }

  lemma DeliveryUsesOne(e: Event, db: Tables)
    requires EventOk(e) && e.status == Pending
    ensures EventOk(DeliveredEvent(e, db)) && 0 <= Left(DeliveredEvent(e, db)) <= Left(e) - 1
  {
  }

  lemma PolledPrefix(events: seq<Event>, limit: nat, db: Tables)
    requires events != []
    ensures Polled(events, limit, db)[..|events| - 1] == Polled(events[..|events| - 1], limit, db)
  {
    var n := |events| - 1;
    forall i | 0 <= i < n
      ensures IsClaimed(events, limit, i) <==> IsClaimed(events[..n], limit, i)
    {
      assert events[..n][..i] == events[..i];
    }
  }

  lemma PolledKeepsQueueOk(events: seq<Event>, limit: nat, db: Tables)
    requires QueueOk(events)
    ensures QueueOk(Polled(events, limit, db))
  {
    forall i | 0 <= i < |events|
      ensures EventOk(Polled(events, limit, db)[i])
    {
      if IsClaimed(events, limit, i) {
        DeliveryUsesOne(events[i], db);
      }
    }
  }

  /** A poll uses up at least one attempt for every event it claims. */
  lemma {:induction false} PollUsesBatch(events: seq<Event>, limit: nat, db: Tables)
    requires QueueOk(events)
    ensures TotalLeft(Polled(events, limit, db)) <= TotalLeft(events) - Min(limit, PendingCount(events))
  {
    if events != [] {
      var n := |events| - 1;
      PollUsesBatch(events[..n], limit, db);
      PolledPrefix(events, limit, db);
      if events[n].status == Pending {
        DeliveryUsesOne(events[n], db);
      }
    }
  }

  lemma {:induction false} PrefixCount(events: seq<Event>, i: nat)
    requires i < |events|
    ensures PendingCount(events[..i]) + (if events[i].status == Pending then 1 else 0) <= PendingCount(events)
    decreases |events|
  {
    var n := |events| - 1;
    if i < n {
      PrefixCount(events[..n], i);
      assert events[..n][..i] == events[..i];
    }
  }

  /** When the batch is not full, every pending event is claimed and comes one attempt closer to its end. */
  lemma ShortPollReachesAll(events: seq<Event>, limit: nat, db: Tables, bound: int)
    requires QueueOk(events) && PendingCount(events) < limit && AllWithin(events, bound)
    ensures AllWithin(Polled(events, limit, db), if bound > 0 then bound - 1 else bound)
  {
    forall i | 0 <= i < |events|
      ensures Left(Polled(events, limit, db)[i]) <= if bound > 0 then bound - 1 else bound
    {
      assert events[i] in events;
      PrefixCount(events, i);
      if events[i].status == Pending {
        DeliveryUsesOne(events[i], db);
      }
    }
  }

  lemma PollStaysWithin(events: seq<Event>, limit: nat, db: Tables, bound: int)
    requires QueueOk(events) && AllWithin(events, bound)
    ensures AllWithin(Polled(events, limit, db), bound)
  {
    forall i | 0 <= i < |events|
      ensures Left(Polled(events, limit, db)[i]) <= bound
    {
      assert events[i] in events;
      if IsClaimed(events, limit, i) {
        DeliveryUsesOne(events[i], db);
      }
    }
  }

  /** The outbox after one poll per directory. */
  function Drained(events: seq<Event>, limit: nat, dbs: seq<Tables>): seq<Event>
    decreases |dbs|
  {
    if dbs == [] then events else Drained(Polled(events, limit, dbs[0]), limit, dbs[1..])
  }

  predicate AllTerminal(events: seq<Event>) {
    forall e <- events :: IsTerminal(e.status)
  }

  lemma NothingLeftIsTerminal(events: seq<Event>)
    requires QueueOk(events) && AllWithin(events, 0)
    ensures AllTerminal(events)
  {
    forall e | e in events
      ensures IsTerminal(e.status)
    {
      assert EventOk(e) && Left(e) <= 0;
    }
  }

  lemma {:induction false} TotalIsPositive(events: seq<Event>)
    requires QueueOk(events)
    ensures 0 <= TotalLeft(events) <= MAX_ATTEMPTS * PendingCount(events)
  {
    if events != [] {
      var n := |events| - 1;
      TotalIsPositive(events[..n]);
      assert EventOk(events[n]);
    }
  }

  /** Full polls use up `limit` attempts each, and at most `bound` polls are short. */
  lemma {:induction false} DrainsWithin(events: seq<Event>, limit: nat, dbs: seq<Tables>, bound: nat)
    requires limit > 0 && QueueOk(events) && AllWithin(events, bound)
    requires TotalLeft(events) < (|dbs| - bound + 1) * limit
    ensures AllTerminal(Drained(events, limit, dbs))
    decreases |dbs|
  {
    hide QueueOk, AllWithin, AllTerminal, TotalLeft, PendingCount, Polled;
    TotalIsPositive(events);
    if bound == 0 {
      DrainedStaysTerminal(events, limit, dbs);
    } else {
      var slack := |dbs| - bound + 1;
      FactorIsPositive(slack, limit);
      var next, rest := Polled(events, limit, dbs[0]), dbs[1..];
      PolledKeepsQueueOk(events, limit, dbs[0]);
      PollUsesBatch(events, limit, dbs[0]);
      if PendingCount(events) < limit {
        ShortPollReachesAll(events, limit, dbs[0], bound);
        assert |rest| - (bound - 1) + 1 == slack;
        DrainsWithin(next, limit, rest, bound - 1);
      } else {
        PollStaysWithin(events, limit, dbs[0], bound);
        OneBatchLess(slack, limit);
        assert |rest| - bound + 1 == slack - 1;
        DrainsWithin(next, limit, rest, bound);
      }
    }
  }

  lemma OneBatchLess(a: int, b: int)
    ensures a * b - b == (a - 1) * b
  {
  }

  lemma FactorIsPositive(a: int, b: int)
    requires 0 < a * b && b > 0
    ensures a > 0
  {
  }

  lemma {:induction false} DrainedStaysTerminal(events: seq<Event>, limit: nat, dbs: seq<Tables>)
    requires QueueOk(events) && AllWithin(events, 0)
    ensures AllTerminal(Drained(events, limit, dbs))
    decreases |dbs|
  {
    if dbs == [] {
      NothingLeftIsTerminal(events);
    } else {
      PolledKeepsQueueOk(events, limit, dbs[0]);
      PollStaysWithin(events, limit, dbs[0], 0);
      DrainedStaysTerminal(Polled(events, limit, dbs[0]), limit, dbs[1..]);
    }
  }

  /**
   From any committed queue of N pending events, floor(5N / limit) + 5 undisturbed polls leave every event terminal,
   whatever the directory is at each poll.
   */
  lemma OutboxDrains(events: seq<Event>, limit: nat, dbs: seq<Tables>)
    requires limit > 0 && QueueOk(events)
    requires |dbs| >= MAX_ATTEMPTS * PendingCount(events) / limit + MAX_ATTEMPTS
    ensures AllTerminal(Drained(events, limit, dbs))
  {
    TotalIsPositive(events);
    var total := MAX_ATTEMPTS * PendingCount(events);
    QuotientBound(total, limit, |dbs| - MAX_ATTEMPTS);
    forall e | e in events
      ensures Left(e) <= MAX_ATTEMPTS
    {
      assert EventOk(e);
    }
    DrainsWithin(events, limit, dbs, MAX_ATTEMPTS);
  }

  lemma QuotientBound(a: nat, b: nat, q: int)
    requires b > 0 && q >= a / b
    ensures a < (q + 1) * b
  {
    assert a == (a / b) * b + a % b;
    assert (q - a / b) * b >= 0;
  }

  // ------------------------------------------------------------------------------------ the same as steps of a run

  /** One poll of the relay after another, each after a change of directory. */
  function DrainSteps(s: System, relay: nat, limit: nat, dbs: seq<Tables>): seq<Step>
    decreases |dbs|
  {
    if dbs == [] then []
    else
      var changed := s.(db := dbs[0]);
      var poll := PollSteps(changed, relay, limit);
      [ChangeDirectory(dbs[0])] + (poll + DrainSteps(Run(changed, poll), relay, limit, dbs[1..]))
  }

  lemma {:induction false} DrainStepsDrain(s: System, relay: nat, limit: nat, dbs: seq<Tables>)
    requires s.open == map[]
    ensures Run(s, DrainSteps(s, relay, limit, dbs)).events == Drained(s.events, limit, dbs)
    decreases |dbs|
  {
    hide Run, PollSteps, Polled, PolledCount;
    if dbs == [] {
      NoStep(s);
    } else {
      var changed := s.(db := dbs[0]);
      var poll := PollSteps(changed, relay, limit);
      var t := Run(changed, poll);
      UndisturbedPoll(changed, relay, limit);
      DrainStepsDrain(t, relay, limit, dbs[1..]);
      RunInTwo(s, [ChangeDirectory(dbs[0])], poll + DrainSteps(t, relay, limit, dbs[1..]));
      OneStep(s, ChangeDirectory(dbs[0]));
      RunInTwo(changed, poll, DrainSteps(t, relay, limit, dbs[1..]));
    }
  }

  lemma NoStep(s: System)
    ensures Run(s, []) == s
  {
  }

  /** Any run that leaves no transaction open is brought to its end by that many polls of one relay. */
  lemma RelayDrainsOutbox(db: Tables, steps: seq<Step>, relay: nat, limit: nat, dbs: seq<Tables>)
    requires limit > 0 && Run(Initial(db), steps).open == map[]
    requires |dbs| >= MAX_ATTEMPTS * PendingCount(Run(Initial(db), steps).events) / limit + MAX_ATTEMPTS
    ensures var s := Run(Initial(db), steps);
            AllTerminal(Run(Initial(db), steps + DrainSteps(s, relay, limit, dbs)).events)
  {
    hide Run, DrainSteps, Drained, AllTerminal;
    var s := Run(Initial(db), steps);
    RunKeepsInv(db, steps);
    RunInTwo(Initial(db), steps, DrainSteps(s, relay, limit, dbs));
    DrainStepsDrain(s, relay, limit, dbs);
    OutboxDrains(s.events, limit, dbs);
  }
}

/**
 The loan services as the repository runs them: one row at a time, then a commit. Each is proved to have the effect
 that Loans gives its call. The history of admissions is a ghost.
 */
module LoanService {
  import opened Wrappers
  import opened Loans
  import LoanBounds

  class Session {
    var employees: map<nat, Employee>
    var policies: seq<Policy>
    var requests: seq<Request>
    var clock: nat
    ghost var admissions: seq<Admission>
    ghost var committed: State

    ghost function View(): State
      reads this
    {
      State(employees, policies, requests, clock, admissions)
    }

    /** Nothing is uncommitted, and what is committed satisfies the invariant of every run. */
    ghost predicate Valid()
      reads this
    {
      View() == committed && LoanBounds.Inv(committed)
    }

    constructor ()
      ensures Valid() && committed == Run([])
    {
      employees, policies, requests, clock, admissions := map[], [], [], 0, [];
      committed := State(map[], [], [], 0, []);
    }

    method Commit()
      modifies this`committed
      ensures committed == View()
    {
      committed := View();
    }

    /** `submit_request`: the first failing rule wins. */
    method SubmitRequest(employee: nat, kind: Kind, amount: nat) returns (error: Option<Error>)
      requires Valid()
      modifies this
      ensures Valid()
      ensures HasOutcome(old(committed), Submit(old(committed), employee, kind, amount), committed, error)
    {
      hide LoanBounds.Inv, YearAt, Count, ActiveSum, LivePolicy, Next;
      LoanBounds.CallKeepsInv(committed, Ask(employee, kind, amount));
      NextIs(committed, Ask(employee, kind, amount));
      if amount == 0 {
        return Some(Invalid);
      }
      if employee !in employees {
        return Some(NotFound);
      }
      var requester := employees[employee];
      if !requester.active {
        return Some(Invalid);
      }
      var year := YearAt(clock);
      if year.None? {
        return Some(ClockOutOfRange);
      }
      var found := LivePolicy(policies, requester.workplace, year.value, None);
      if found.None? || !policies[found.value].active {
        return Some(NoPolicy);
      }
      var policy := policies[found.value];
      var lifetime := Count(requests, employee, None, |requests|);
      if lifetime >= policy.limits.lifetime {
        return Some(LifetimeCount);
      }
      var yearly := Count(requests, employee, year, |requests|);
      if yearly >= policy.limits.perYear {
        return Some(YearlyCount);
      }
      var activeSum := ActiveSum(requests, employee, year.value, kind, |requests|);
      if kind == Loan {
        if activeSum + amount > policy.limits.maxLoan {
          return Some(LoanCap);
        }
      } else {
        if activeSum + amount > policy.limits.maxGuarantee {
          return Some(GuaranteeCap);
        }
      }
      requests := requests + [Request(employee, requester.workplace, kind, amount, year.value, Pending, 1)];
      admissions := admissions + [Admission(policy, activeSum, clock)];
      Commit();
      error := None;
    }

    method ActivateRequest(id: nat, version: nat, granted: bool) returns (error: Option<Error>)
      requires Valid()
      modifies this
      ensures Valid()
      ensures HasOutcome(old(committed), Transit(old(committed), Activate, id, version, granted), committed, error)
    {
      hide LoanBounds.Inv;
      LoanBounds.CallKeepsInv(committed, Move(Activate, id, version, granted));
      if id >= |requests| || !granted {
        return Some(NotFound);
      }
      if requests[id].version != version {
        return Some(StaleVersion);
      }
      if requests[id].status != Pending {
        return Some(RuleViolation);
      }
      if requests[id].employee !in employees || !employees[requests[id].employee].active {
        return Some(RuleViolation);
      }
      var request := requests[id].(status := Active);
      request := request.(version := request.version + 1);
      requests := requests[id := request];
      Commit();
      error := None;
    }

    method SettleRequest(id: nat, version: nat, granted: bool) returns (error: Option<Error>)
      requires Valid()
      modifies this
      ensures Valid()
      ensures HasOutcome(old(committed), Transit(old(committed), Settle, id, version, granted), committed, error)
    {
      hide LoanBounds.Inv;
      LoanBounds.CallKeepsInv(committed, Move(Settle, id, version, granted));
      if id >= |requests| || !granted {
        return Some(NotFound);
      }
      if requests[id].version != version {
        return Some(StaleVersion);
      }
      if requests[id].status != Active {
        return Some(RuleViolation);
      }
      var request := requests[id].(status := Settled);
      request := request.(version := request.version + 1);
      requests := requests[id := request];
      Commit();
      error := None;
    }

    method CancelRequest(id: nat, version: nat, granted: bool) returns (error: Option<Error>)
      requires Valid()
      modifies this
      ensures Valid()
      ensures HasOutcome(old(committed), Transit(old(committed), Cancel, id, version, granted), committed, error)
    {
      hide LoanBounds.Inv;
      LoanBounds.CallKeepsInv(committed, Move(Cancel, id, version, granted));
      if id >= |requests| || !granted {
        return Some(NotFound);
      }
      if requests[id].version != version {
        return Some(StaleVersion);
      }
      if requests[id].status != Pending && requests[id].status != Active {
        return Some(RuleViolation);
      }
      var request := requests[id].(status := Cancelled);
      request := request.(version := request.version + 1);
      requests := requests[id := request];
      Commit();
      error := None;
    }

    /** The limits that an update sets, one by one. */
    method Overwrite(before: Limits, c: Changes) returns (limits: Limits)
      ensures limits == Changed(before, c)
    {
      limits := before;
      if c.maxLoan.Some? {
        limits := limits.(maxLoan := c.maxLoan.value);
      }
      if c.maxGuarantee.Some? {
        limits := limits.(maxGuarantee := c.maxGuarantee.value);
      }
      if c.perYear.Some? {
        limits := limits.(perYear := c.perYear.value);
      }
      if c.lifetime.Some? {
        limits := limits.(lifetime := c.lifetime.value);
      }
    }

    /** `update_policy`: each field that the payload sets is overwritten in turn. */
    method UpdatePolicy(id: nat, version: nat, c: Changes, granted: bool) returns (error: Option<Error>)
      requires Valid()
      modifies this
      ensures Valid()
      ensures HasOutcome(old(committed), Loans.UpdatePolicy(old(committed), id, version, c, granted), committed, error)
    {
      hide LoanBounds.Inv;
      LoanBounds.CallKeepsInv(committed, ChangePolicy(id, version, c, granted));
      if c.year.Some? && !(MIN_YEAR <= c.year.value <= MAX_YEAR) {
        return Some(Invalid);
      }
      if id >= |policies| || policies[id].deleted {
        return Some(NotFound);
      }
      if !granted {
        return Some(Denied);
      }
      if policies[id].version != version {
        return Some(StaleVersion);
      }
      var policy := policies[id];
      if c.year.Some? && c.year.value != policy.year {
        if LivePolicy(policies, policy.workplace, c.year.value, Some(id)).Some? {
          return Some(Duplicate);
        }
        policy := policy.(year := c.year.value);
      }
      var limits := Overwrite(policy.limits, c);
      policy := policy.(limits := limits);
      if c.active.Some? {
        policy := policy.(active := c.active.value);
      }
      policy := policy.(version := policy.version + 1);
      policies := policies[id := policy];
      Commit();
      error := None;
    }

    method CreatePolicy(workplace: nat, year: int, limits: Limits, known: bool, granted: bool) returns (error: Option<Error>)
      requires Valid()
      modifies this
      ensures Valid()
      ensures HasOutcome(old(committed), Loans.CreatePolicy(old(committed), workplace, year, limits, known, granted), committed, error)
    {
      hide LoanBounds.Inv;
      LoanBounds.CallKeepsInv(committed, NewPolicy(workplace, year, limits, known, granted));
      if !(MIN_YEAR <= year <= MAX_YEAR) {
        return Some(Invalid);
      }
      if !known {
        return Some(NotFound);
      }
      if !granted {
        return Some(Denied);
      }
      if LivePolicy(policies, workplace, year, None).Some? {
        return Some(Duplicate);
      }
      policies := policies + [Policy(workplace, year, limits, true, false, 1)];
      Commit();
      error := None;
    }

    method RetirePolicy(id: nat, version: nat, granted: bool) returns (error: Option<Error>)
      requires Valid()
      modifies this
      ensures Valid()
      ensures HasOutcome(old(committed), Loans.RetirePolicy(old(committed), id, version, granted), committed, error)
    {
      hide LoanBounds.Inv;
      LoanBounds.CallKeepsInv(committed, EndPolicy(id, version, granted));
      if id >= |policies| || policies[id].deleted {
        return Some(NotFound);
      }
      if !granted {
        return Some(Denied);
      }
      if policies[id].version != version {
        return Some(StaleVersion);
      }
      var policy := policies[id].(deleted := true);
      policy := policy.(version := policy.version + 1);
      policies := policies[id := policy];
      Commit();
      error := None;
    }
  }

  lemma NextIs(s: State, call: Call)
    ensures Next(s, call) == if Perform(s, call).Success? then Perform(s, call).value else s
  {
  }
}

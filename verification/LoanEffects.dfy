/**
 What each loan call does to the tables, and exactly when it is accepted or refused, in terms of the call's own arguments
 and the rows before it (backend/app/modules/loan/service.py, repository.py).
 */
module LoanEffects {
  import opened Wrappers
  import opened Loans
  import LoanBounds

  // ------------------------------------------------------------------------------------ the rows that count

  /** The requests an employee ever made. */
  ghost function RowsOf(requests: seq<Request>, employee: nat): set<nat> {
    set i: nat | i < |requests| && requests[i].employee == employee
  }

  /** Those of one year. */
  ghost function RowsOfYear(requests: seq<Request>, employee: nat, year: int): set<nat> {
    set i: nat | i < |requests| && requests[i].employee == employee && requests[i].year == year
  }

  /** Those of one year and type that are active now. */
  ghost function ActiveRows(requests: seq<Request>, employee: nat, year: int, kind: Kind): set<nat> {
    set i: nat | i < |requests| && requests[i].employee == employee && requests[i].year == year && requests[i].kind == kind &&
                 requests[i].status.Active?
  }

  /** The amounts of the rows in a set, added up. */
  ghost function AmountsOf(requests: seq<Request>, rows: set<nat>): nat {
    if requests == [] then 0
    else
      var n := |requests| - 1;
      AmountsOf(requests[..n], rows) + if n in rows then requests[n].amount else 0
  }

  lemma OneMore(before: set<nat>, after: set<nat>, n: nat, isIn: bool)
    requires n !in before && forall i: nat :: i in after <==> i in before || (isIn && i == n)
    ensures |after| == |before| + if isIn then 1 else 0
  {
    assert after == before + if isIn then {n} else {};
  }

  lemma {:induction false} LifetimeCountIsSize(requests: seq<Request>, employee: nat, n: nat)
    requires n <= |requests|
    ensures Count(requests, employee, None, n) == |RowsOf(requests[..n], employee)|
  {
    if n == 0 {
      assert RowsOf(requests[..0], employee) == {};
    } else {
      LifetimeCountIsSize(requests, employee, n - 1);
      OneMore(RowsOf(requests[..n - 1], employee), RowsOf(requests[..n], employee), n - 1, requests[n - 1].employee == employee);
    }
  }

  lemma {:induction false} YearlyCountIsSize(requests: seq<Request>, employee: nat, year: int, n: nat)
    requires n <= |requests|
    ensures Count(requests, employee, Some(year), n) == |RowsOfYear(requests[..n], employee, year)|
  {
    if n == 0 {
      assert RowsOfYear(requests[..0], employee, year) == {};
    } else {
      YearlyCountIsSize(requests, employee, year, n - 1);
      OneMore(RowsOfYear(requests[..n - 1], employee, year), RowsOfYear(requests[..n], employee, year), n - 1,
              requests[n - 1].employee == employee && requests[n - 1].year == year);
    }
  }

  lemma {:induction false} AmountsAgree(requests: seq<Request>, a: set<nat>, b: set<nat>)
    requires forall i: nat :: i < |requests| ==> (i in a <==> i in b)
    ensures AmountsOf(requests, a) == AmountsOf(requests, b)
  {
    if requests != [] {
      AmountsAgree(requests[..|requests| - 1], a, b);
    }
  }

  lemma {:induction false} ActiveSumIsAmounts(requests: seq<Request>, employee: nat, year: int, kind: Kind, n: nat)
    requires n <= |requests|
    ensures ActiveSum(requests, employee, year, kind, n) == AmountsOf(requests[..n], ActiveRows(requests[..n], employee, year, kind))
  {
    if n > 0 {
      ActiveSumIsAmounts(requests, employee, year, kind, n - 1);
      assert requests[..n][..n - 1] == requests[..n - 1];
      AmountsAgree(requests[..n - 1], ActiveRows(requests[..n - 1], employee, year, kind), ActiveRows(requests[..n], employee, year, kind));
    }
  }

  /** The three aggregates are the numbers of the rows they speak of, and the sum of their amounts. */
  lemma AggregatesAre(requests: seq<Request>, employee: nat, year: int, kind: Kind)
    ensures Count(requests, employee, None, |requests|) == |RowsOf(requests, employee)|
    ensures Count(requests, employee, Some(year), |requests|) == |RowsOfYear(requests, employee, year)|
    ensures ActiveSum(requests, employee, year, kind, |requests|) == AmountsOf(requests, ActiveRows(requests, employee, year, kind))
  {
    assert requests[..|requests|] == requests;
    LifetimeCountIsSize(requests, employee, |requests|);
    YearlyCountIsSize(requests, employee, year, |requests|);
    ActiveSumIsAmounts(requests, employee, year, kind, |requests|);
  }

  // ------------------------------------------------------------------------------------ submission

  /** Policy p governs the workplace and year, and is not paused. */
  predicate Governs(s: State, p: int, workplace: nat, year: int) {
    0 <= p < |s.policies| && s.policies[p].workplace == workplace && s.policies[p].year == year &&
    !s.policies[p].deleted && s.policies[p].active
  }

  /** The request is from an active employee, in a year that can be told, for some amount. */
  predicate IsAskable(s: State, employee: nat, amount: nat) {
    amount > 0 && employee in s.employees && s.employees[employee].active && YearAt(s.clock).Some?
  }

  ghost predicate HasLifetimeLeft(s: State, p: Policy, employee: nat) {
    |RowsOf(s.requests, employee)| < p.limits.lifetime
  }

  ghost predicate HasYearLeft(s: State, p: Policy, employee: nat, year: int) {
    |RowsOfYear(s.requests, employee, year)| < p.limits.perYear
  }

  /** The active amounts of the year and type, with the one asked for, stay within the type's own maximum. */
  ghost predicate HasAmountLeft(s: State, p: Policy, employee: nat, year: int, kind: Kind, amount: nat) {
    AmountsOf(s.requests, ActiveRows(s.requests, employee, year, kind)) + amount <=
    match kind case Loan => p.limits.maxLoan case Guarantee => p.limits.maxGuarantee
  }

  /**
   A submission is accepted exactly when a policy in force governs the employee's workplace this year and leaves room in
   both counts and in the amount; otherwise the first of these that is missing is the error. It appends one pending row.
   */
  lemma SubmissionEffect(s: State, employee: nat, kind: Kind, amount: nat, p: nat)
    requires LoanBounds.OnePolicyEach(s.policies) && IsAskable(s, employee, amount)
    requires Governs(s, p, s.employees[employee].workplace, YearAt(s.clock).value)
    ensures var r, year, policy := Submit(s, employee, kind, amount), YearAt(s.clock).value, s.policies[p];
            && (r == Failure(LifetimeCount) <==> !HasLifetimeLeft(s, policy, employee))
            && (r == Failure(YearlyCount) <==> HasLifetimeLeft(s, policy, employee) && !HasYearLeft(s, policy, employee, year))
            && (r == Failure(if kind.Loan? then LoanCap else GuaranteeCap) <==>
                  (HasLifetimeLeft(s, policy, employee) && HasYearLeft(s, policy, employee, year) &&
                   !HasAmountLeft(s, policy, employee, year, kind, amount)))
            && (r.Success? <==>
                  (HasLifetimeLeft(s, policy, employee) && HasYearLeft(s, policy, employee, year) &&
                   HasAmountLeft(s, policy, employee, year, kind, amount)))
            && (r.Success? ==>
                  && r.value.requests == s.requests + [Request(employee, s.employees[employee].workplace, kind, amount, year, Pending, 1)]
                  && r.value.policies == s.policies && r.value.employees == s.employees && r.value.clock == s.clock)
  {
    hide YearAt, Count, ActiveSum, LivePolicy;
    var year, workplace := YearAt(s.clock).value, s.employees[employee].workplace;
    AggregatesAre(s.requests, employee, year, kind);
    assert IsLive(s.policies, p, workplace, year);
    FoundIs(s, workplace, year, p);
  }

  lemma FoundIs(s: State, workplace: nat, year: int, p: nat)
    requires LoanBounds.OnePolicyEach(s.policies) && IsLive(s.policies, p, workplace, year)
    ensures LivePolicy(s.policies, workplace, year, None) == Some(p)
  {
    hide LivePolicy;
    var found := LivePolicy(s.policies, workplace, year, None);
    assert found.None? ==> Some(p) == None;
  }

  /** Without an active employee, a year or a policy in force the submission is refused for that. */
  lemma SubmissionNeeds(s: State, employee: nat, kind: Kind, amount: nat)
    requires LoanBounds.OnePolicyEach(s.policies)
    ensures var r := Submit(s, employee, kind, amount);
            && (r == Failure(NotFound) <==> amount > 0 && employee !in s.employees)
            && (r == Failure(Invalid) <==> amount == 0 || (employee in s.employees && !s.employees[employee].active))
            && (r == Failure(ClockOutOfRange) <==>
                  (amount > 0 && employee in s.employees && s.employees[employee].active && YearAt(s.clock).None?))
            && (r == Failure(NoPolicy) <==>
                  (IsAskable(s, employee, amount) &&
                   !exists p :: Governs(s, p, s.employees[employee].workplace, YearAt(s.clock).value)))
  {
    hide YearAt, Count, ActiveSum, LivePolicy;
    if IsAskable(s, employee, amount) {
      var year, workplace := YearAt(s.clock).value, s.employees[employee].workplace;
      var found := LivePolicy(s.policies, workplace, year, None);
      if found.Some? && s.policies[found.value].active {
        assert Governs(s, found.value, workplace, year);
      }
      if p :| Governs(s, p, workplace, year) {
        assert IsLive(s.policies, p, workplace, year);
        FoundIs(s, workplace, year, p);
      }
    }
  }

  // ------------------------------------------------------------------------------------ transitions

  /** The request in its new status, one version on; no other row changes. */
  predicate IsRestatused(s: State, t: State, id: nat, status: Status) {
    id < |s.requests| && t == s.(requests := s.requests[id := s.requests[id].(status := status, version := s.requests[id].version + 1)])
  }

  predicate IsAddressed(s: State, id: nat, version: nat, granted: bool) {
    id < |s.requests| && granted && s.requests[id].version == version
  }

  /** Activation is for a pending request of an active employee, settling for an active one, cancelling for either. */
  lemma TransitionEffect(s: State, id: nat, version: nat, granted: bool)
    ensures var r := Transit(s, Activate, id, version, granted);
            && (r.Success? <==> IsAddressed(s, id, version, granted) && s.requests[id].status.Pending? &&
                                s.requests[id].employee in s.employees && s.employees[s.requests[id].employee].active)
            && (r.Success? ==> IsRestatused(s, r.value, id, Status.Active))
    ensures var r := Transit(s, Settle, id, version, granted);
            && (r.Success? <==> IsAddressed(s, id, version, granted) && s.requests[id].status.Active?)
            && (r.Success? ==> IsRestatused(s, r.value, id, Status.Settled))
    ensures var r := Transit(s, Cancel, id, version, granted);
            && (r.Success? <==> IsAddressed(s, id, version, granted) && (s.requests[id].status.Pending? || s.requests[id].status.Active?))
            && (r.Success? ==> IsRestatused(s, r.value, id, Status.Cancelled))
  {
  }

  lemma {:induction false} SumOfChanged(requests: seq<Request>, id: nat, r: Request, employee: nat, year: int, kind: Kind, n: nat)
    requires id < |requests| && n <= |requests|
    ensures ActiveSum(requests[id := r], employee, year, kind, n) ==
            ActiveSum(requests, employee, year, kind, n)
            - (if id < n && IsActiveOf(requests[id], employee, year, kind) then requests[id].amount else 0)
            + (if id < n && IsActiveOf(r, employee, year, kind) then r.amount else 0)
  {
    hide IsActiveOf;
    if n > 0 {
      SumOfChanged(requests, id, r, employee, year, kind, n - 1);
    }
  }

  function Sum(s: State, employee: nat, year: int, kind: Kind): nat {
    ActiveSum(s.requests, employee, year, kind, |s.requests|)
  }

  predicate IsOf(r: Request, employee: nat, year: int, kind: Kind) {
    r.employee == employee && r.year == year && r.kind == kind
  }

  /** Activation adds a request's amount to the sum of its employee, year and type; ending an active one takes it back. */
  lemma SumFollowsStatus(s: State, transition: Transition, id: nat, version: nat, granted: bool, employee: nat, year: int, kind: Kind)
    requires Transit(s, transition, id, version, granted).Success?
    ensures var t, r := Transit(s, transition, id, version, granted).value, s.requests[id];
            Sum(t, employee, year, kind) == Sum(s, employee, year, kind) +
              if !IsOf(r, employee, year, kind) then 0
              else if transition.Activate? then r.amount
              else if r.status.Active? then -(r.amount as int) else 0
  {
    var t := Transit(s, transition, id, version, granted).value;
    SumOfChanged(s.requests, id, t.requests[id], employee, year, kind, |s.requests|);
  }

  /** No other call changes any active sum: a new request is pending. */
  lemma OtherCallsKeepSums(s: State, call: Call, employee: nat, year: int, kind: Kind)
    requires !call.Move?
    ensures Sum(Next(s, call), employee, year, kind) == Sum(s, employee, year, kind)
  {
    hide YearAt, Count, LivePolicy;
    if call.Ask? && Next(s, call) != s {
      var t, n := Next(s, call), |s.requests|;
      assert t.requests[..n] == s.requests;
      SumOfPrefix(s.requests, t.requests, employee, year, kind, n);
    }
  }

  lemma {:induction false} SumOfPrefix(rs: seq<Request>, ts: seq<Request>, employee: nat, year: int, kind: Kind, n: nat)
    requires n <= |rs| <= |ts| && ts[..|rs|] == rs
    ensures ActiveSum(ts, employee, year, kind, n) == ActiveSum(rs, employee, year, kind, n)
  {
    if n > 0 {
      SumOfPrefix(rs, ts, employee, year, kind, n - 1);
      assert ts[..|rs|][n - 1] == ts[n - 1];
    }
  }

  // ------------------------------------------------------------------------------------ policies

  /** A new policy holds the given limits, is in force and of version 1, and needs the workplace and year to be free. */
  lemma NewPolicyEffect(s: State, workplace: nat, year: int, limits: Limits, known: bool, granted: bool)
    ensures var r := Loans.CreatePolicy(s, workplace, year, limits, known, granted);
            && (r.Success? <==> (1300 <= year <= 1500 && known && granted && forall p :: !IsLive(s.policies, p, workplace, year)))
            && (r.Success? ==> r.value == s.(policies := s.policies + [Policy(workplace, year, limits, true, false, 1)]))
  {
    hide LivePolicy;
    var found := LivePolicy(s.policies, workplace, year, None);
    if p :| IsLive(s.policies, p, workplace, year) && p >= 0 {
      assert found.None? ==> Some(p as nat) == None;
    }
  }

  /** The value that an update gives, or the one there was. */
  predicate IsSet<T(==)>(change: Option<T>, before: T, after: T) {
    match change
    case Some(value) => after == value
    case None => after == before
  }

  predicate IsOwn(s: State, id: nat, version: nat, granted: bool) {
    id < |s.policies| && !s.policies[id].deleted && granted && s.policies[id].version == version
  }

  /** An update sets the given fields of a live policy of its version; a new year must be free at the workplace. */
  lemma PolicyUpdateEffect(s: State, id: nat, version: nat, c: Changes, granted: bool)
    ensures var r := Loans.UpdatePolicy(s, id, version, c, granted);
            && (r.Success? <==>
                  (IsOwn(s, id, version, granted) &&
                   (c.year.Some? ==>
                      (1300 <= c.year.value <= 1500 &&
                       (c.year.value == s.policies[id].year ||
                        forall p :: p != id ==> !IsLive(s.policies, p, s.policies[id].workplace, c.year.value))))))
            && (r.Success? ==>
                  var p := s.policies[id];
                  && |r.value.policies| == |s.policies| && r.value == s.(policies := s.policies[id := r.value.policies[id]])
                  && var q := r.value.policies[id];
                  && q.workplace == p.workplace && !q.deleted && q.version == version + 1
                  && IsSet(c.year, p.year, q.year) && IsSet(c.active, p.active, q.active)
                  && IsSet(c.maxLoan, p.limits.maxLoan, q.limits.maxLoan)
                  && IsSet(c.maxGuarantee, p.limits.maxGuarantee, q.limits.maxGuarantee)
                  && IsSet(c.perYear, p.limits.perYear, q.limits.perYear)
                  && IsSet(c.lifetime, p.limits.lifetime, q.limits.lifetime))
  {
    hide LivePolicy;
    if IsOwn(s, id, version, granted) && c.year.Some? && c.year.value != s.policies[id].year {
      OtherLivePolicy(s.policies, s.policies[id].workplace, c.year.value, id);
    }
  }

  lemma OtherLivePolicy(policies: seq<Policy>, workplace: nat, year: int, except: nat)
    ensures LivePolicy(policies, workplace, year, Some(except)).None? <==>
            forall p :: p != except ==> !IsLive(policies, p, workplace, year)
  {
    hide LivePolicy;
    var found := LivePolicy(policies, workplace, year, Some(except));
    if found.None? {
      forall p | p != except && 0 <= p
        ensures !IsLive(policies, p, workplace, year)
      {
        assert Some(p as nat) != Some(except);
      }
    }
  }

  /** A retirement deletes a live policy of its version. */
  lemma PolicyRetirementEffect(s: State, id: nat, version: nat, granted: bool)
    ensures var r := Loans.RetirePolicy(s, id, version, granted);
            && (r.Success? <==> IsOwn(s, id, version, granted))
            && (r.Success? ==> r.value == s.(policies := s.policies[id := s.policies[id].(deleted := true, version := version + 1)]))
  {
  }
}

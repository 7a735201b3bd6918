/** What every run of the loan services keeps: who was admitted, under which limits, and how much can become active. */
module LoanBounds {
  import opened Wrappers
  import opened Loans
  import JalaliConversion

  // ------------------------------------------------------------------------------------ counts and sums

  /** The rows agree on everything that is fixed at submission. */
  predicate SameDemands(rs: seq<Request>, ts: seq<Request>, n: nat)
    requires n <= |rs| && n <= |ts|
  {
    forall i :: 0 <= i < n ==> rs[i].employee == ts[i].employee && rs[i].year == ts[i].year
  }

  lemma {:induction false} CountOfSame(rs: seq<Request>, ts: seq<Request>, employee: nat, year: Option<int>, n: nat)
    requires n <= |rs| && n <= |ts| && SameDemands(rs, ts, n)
    ensures Count(rs, employee, year, n) == Count(ts, employee, year, n)
  {
    if n > 0 {
      CountOfSame(rs, ts, employee, year, n - 1);
    }
  }

  lemma {:induction false} SumIsBounded(rs: seq<Request>, employee: nat, year: int, kind: Kind, cap: nat, n: nat)
    requires n <= |rs|
    requires forall i :: 0 <= i < n && Counts(rs[i], employee, Some(year)) && rs[i].kind == kind ==> rs[i].amount <= cap
    ensures ActiveSum(rs, employee, year, kind, n) <= Count(rs, employee, Some(year), n) * cap
  {
    if n > 0 {
      SumIsBounded(rs, employee, year, kind, cap, n - 1);
      var c := Count(rs, employee, Some(year), n - 1);
      assert (c + 1) * cap == c * cap + cap;
    }
  }

  /** A bound on the count after each row of an employee and year bounds the count after all rows. */
  lemma {:induction false} CountIsBounded(rs: seq<Request>, employee: nat, year: Option<int>, limit: nat, n: nat)
    requires n <= |rs|
    requires forall i :: 0 <= i < n && Counts(rs[i], employee, year) ==> Count(rs, employee, year, i + 1) <= limit
    ensures Count(rs, employee, year, n) <= limit
  {
    if n > 0 {
      CountIsBounded(rs, employee, year, limit, n - 1);
    }
  }

  // ------------------------------------------------------------------------------------ the invariant

  /** What was true when request i was accepted, and stays true of it. */
  predicate WasAdmitted(s: State, i: int)
    requires 0 <= i < |s.requests| && |s.admissions| == |s.requests|
  {
    var r, a := s.requests[i], s.admissions[i];
    && Count(s.requests, r.employee, Some(r.year), i + 1) <= a.policy.limits.perYear
    && Count(s.requests, r.employee, None, i + 1) <= a.policy.limits.lifetime
    && 0 < r.amount && a.activeSum + r.amount <= Cap(a.policy.limits, r.kind)
    && a.policy.active && !a.policy.deleted && a.policy.workplace == r.workplace && a.policy.year == r.year
    && MIN_YEAR <= r.year <= MAX_YEAR
    && a.at <= s.clock && YearAt(a.at) == Some(r.year)
  }

  /** The version counts the transitions, so a request makes at most two. */
  predicate VersionOk(r: Request) {
    match r.status
    case Pending => r.version == 1
    case Active => r.version == 2
    case Settled => r.version == 3
    case Cancelled => r.version == 2 || r.version == 3
  }

  ghost predicate OnePolicyEach(policies: seq<Policy>) {
    forall i, j, workplace, year ::
      IsLive(policies, i, workplace, year) && IsLive(policies, j, workplace, year) ==> i == j
  }

  ghost predicate Inv(s: State) {
    && |s.admissions| == |s.requests|
    && (forall i :: 0 <= i < |s.requests| ==> WasAdmitted(s, i) && VersionOk(s.requests[i]))
    && (forall i, j :: 0 <= i < j < |s.admissions| ==> s.admissions[i].at <= s.admissions[j].at)
    && OnePolicyEach(s.policies)
    && (forall p <- s.policies :: MIN_YEAR <= p.year <= MAX_YEAR)
  }

  /** The admission of a request is not affected by later rows, statuses or policies. */
  lemma AdmissionStands(s: State, t: State, i: nat)
    requires i < |s.requests| <= |t.requests| && |s.admissions| == |s.requests| && |t.admissions| == |t.requests|
    requires WasAdmitted(s, i) && t.admissions[i] == s.admissions[i] && s.clock <= t.clock
    requires forall k :: 0 <= k <= i ==>
               t.requests[k] == s.requests[k].(status := t.requests[k].status, version := t.requests[k].version)
    ensures WasAdmitted(t, i)
  {
    hide YearAt, Count;
    var r := t.requests[i];
    CountOfSame(s.requests, t.requests, r.employee, Some(r.year), i + 1);
    CountOfSame(s.requests, t.requests, r.employee, None, i + 1);
  }

  lemma CountOfAppended(rs: seq<Request>, r: Request, year: Option<int>)
    requires year.None? || year.value == r.year
    ensures Count(rs + [r], r.employee, year, |rs| + 1) == Count(rs, r.employee, year, |rs|) + 1
  {
    CountOfSame(rs, rs + [r], r.employee, year, |rs|);
  }

  lemma SubmissionIsAdmitted(s: State, employee: nat, kind: Kind, amount: nat)
    requires |s.admissions| == |s.requests| && (forall p <- s.policies :: MIN_YEAR <= p.year <= MAX_YEAR)
    requires Submit(s, employee, kind, amount).Success?
    ensures var t := Submit(s, employee, kind, amount).value;
            |s.requests| < |t.requests| == |t.admissions| && WasAdmitted(t, |s.requests|)
  {
    hide YearAt, ActiveSum, Count, LivePolicy;
    var t := Submit(s, employee, kind, amount).value;
    var r := t.requests[|s.requests|];
    CountOfAppended(s.requests, r, Some(r.year));
    CountOfAppended(s.requests, r, None);
  }

  lemma SubmitKeepsInv(s: State, employee: nat, kind: Kind, amount: nat)
    requires Inv(s) && Submit(s, employee, kind, amount).Success?
    ensures Inv(Submit(s, employee, kind, amount).value)
  {
    hide YearAt, Count, ActiveSum, WasAdmitted;
    var t, n := Submit(s, employee, kind, amount).value, |s.requests|;
    SubmissionIsAdmitted(s, employee, kind, amount);
    forall i | 0 <= i < n
      ensures WasAdmitted(t, i) && t.admissions[i].at <= s.clock
    {
      AdmissionStands(s, t, i);
      AdmittedEarlier(s, i);
    }
  }

  lemma AdmittedEarlier(s: State, i: nat)
    requires i < |s.requests| && |s.admissions| == |s.requests| && WasAdmitted(s, i)
    ensures s.admissions[i].at <= s.clock
  {
    hide YearAt, Count;
  }

  lemma TransitKeepsInv(s: State, transition: Transition, id: nat, version: nat, granted: bool)
    requires Inv(s) && Transit(s, transition, id, version, granted).Success?
    ensures Inv(Transit(s, transition, id, version, granted).value)
  {
    hide WasAdmitted;
    var t := Transit(s, transition, id, version, granted).value;
    assert VersionOk(s.requests[id]);
    forall i | 0 <= i < |t.requests|
      ensures WasAdmitted(t, i)
    {
      AdmissionStands(s, t, i);
    }
  }

  /** Calls that touch no request keep what is known of the requests. */
  lemma OtherRowsKeepInv(s: State, t: State)
    requires Inv(s) && t.requests == s.requests && t.admissions == s.admissions && s.clock <= t.clock
    requires OnePolicyEach(t.policies) && forall p <- t.policies :: MIN_YEAR <= p.year <= MAX_YEAR
    ensures Inv(t)
  {
    hide WasAdmitted;
    forall i | 0 <= i < |t.requests|
      ensures WasAdmitted(t, i)
    {
      AdmissionStands(s, t, i);
    }
  }

  lemma PolicyCallsKeepPolicies(s: State, call: Call)
    requires Inv(s) && (call.NewPolicy? || call.ChangePolicy? || call.EndPolicy?)
    ensures var t := Next(s, call);
            OnePolicyEach(t.policies) && (forall p <- t.policies :: MIN_YEAR <= p.year <= MAX_YEAR)
            && t == s.(policies := t.policies)
  {
    var t := Next(s, call);
    if t != s {
      forall i, j, workplace, year | IsLive(t.policies, i, workplace, year) && IsLive(t.policies, j, workplace, year)
        ensures i == j
      {
        assert i < |s.policies| && t.policies[i] == s.policies[i] ==> IsLive(s.policies, i, workplace, year);
        assert j < |s.policies| && t.policies[j] == s.policies[j] ==> IsLive(s.policies, j, workplace, year);
        if call.ChangePolicy? && s.policies[call.id].year == year {
          assert i == call.id ==> IsLive(s.policies, i, workplace, year);
          assert j == call.id ==> IsLive(s.policies, j, workplace, year);
        }
      }
    }
  }

  lemma CallKeepsInv(s: State, call: Call)
    requires Inv(s)
    ensures Inv(Next(s, call))
  {
    hide YearAt, WasAdmitted;
    match call
    case Ask(employee, kind, amount) =>
      if Submit(s, employee, kind, amount).Success? {
        SubmitKeepsInv(s, employee, kind, amount);
      }
    case Move(transition, id, version, granted) =>
      if Transit(s, transition, id, version, granted).Success? {
        TransitKeepsInv(s, transition, id, version, granted);
      }
    case Wait(_) => OtherRowsKeepInv(s, Next(s, call));
    case Staff(_, _) => OtherRowsKeepInv(s, Next(s, call));
    case _ =>
      PolicyCallsKeepPolicies(s, call);
      OtherRowsKeepInv(s, Next(s, call));
  }

  lemma {:induction false} RunKeepsInv(calls: seq<Call>)
    ensures Inv(Run(calls))
  {
    var n := |calls|;
    if n > 0 {
      RunKeepsInv(calls[..n - 1]);
      CallKeepsInv(Run(calls[..n - 1]), calls[n - 1]);
    }
  }

  // ------------------------------------------------------------------------------------ what every run promises

  /** The k-th request of a year was accepted under a yearly limit of at least k, and likewise for the lifetime. */
  lemma EveryRequestWasWithinLimits(calls: seq<Call>, i: nat)
    requires i < |Run(calls).requests|
    ensures |Run(calls).admissions| == |Run(calls).requests| && WasAdmitted(Run(calls), i)
  {
    RunKeepsInv(calls);
  }

  /**
   Request i was submitted by call k of the run: under a policy live at that moment, with the active sum of the rows of
   that moment, by an employee active in the policy's workplace.
   */
  ghost predicate WasSubmittedAt(calls: seq<Call>, i: nat, k: nat)
    requires i < |Run(calls).requests| && |Run(calls).admissions| == |Run(calls).requests| && k < |calls|
  {
    var s, r, a := Run(calls[..k]), Run(calls).requests[i], Run(calls).admissions[i];
    && |s.requests| == i && calls[k] == Ask(r.employee, r.kind, r.amount)
    && (exists p :: IsLive(s.policies, p, r.workplace, r.year) && s.policies[p] == a.policy)
    && r.employee in s.employees && s.employees[r.employee] == Employee(r.workplace, true)
    && a.activeSum == ActiveSum(s.requests, r.employee, r.year, r.kind, i) && a.at == s.clock
  }

  /** What a request was submitted with, and its admission, never change. */
  lemma SubmissionIsFixed(s: State, call: Call, i: nat)
    requires i < |s.requests| && |s.admissions| == |s.requests|
    ensures var t := Next(s, call);
            i < |t.requests| && |t.admissions| == |t.requests| && t.admissions[i] == s.admissions[i] &&
            t.requests[i] == s.requests[i].(status := t.requests[i].status, version := t.requests[i].version)
  {
    hide YearAt;
  }

  lemma SubmissionIsMade(s: State, call: Call)
    requires |s.admissions| == |s.requests| < |Next(s, call).requests|
    ensures var t, n := Next(s, call), |s.requests|;
            && |t.requests| == |t.admissions| == n + 1 && call == Ask(t.requests[n].employee, t.requests[n].kind, t.requests[n].amount)
            && (exists p :: IsLive(s.policies, p, t.requests[n].workplace, t.requests[n].year) && s.policies[p] == t.admissions[n].policy)
            && t.requests[n].employee in s.employees && s.employees[t.requests[n].employee] == Employee(t.requests[n].workplace, true)
            && t.admissions[n].activeSum == ActiveSum(s.requests, t.requests[n].employee, t.requests[n].year, t.requests[n].kind, n)
            && t.admissions[n].at == s.clock
  {
    hide YearAt, ActiveSum, Count;
  }

  lemma WasSubmittedBefore(calls: seq<Call>, i: nat, k: nat)
    requires calls != [] && Inv(Run(calls[..|calls| - 1])) && i < |Run(calls[..|calls| - 1]).requests| && k < |calls| - 1
    requires WasSubmittedAt(calls[..|calls| - 1], i, k)
    ensures i < |Run(calls).requests| && |Run(calls).admissions| == |Run(calls).requests| && WasSubmittedAt(calls, i, k)
  {
    hide Next, ActiveSum, IsLive, WasAdmitted, OnePolicyEach;
    var n := |calls| - 1;
    SubmissionIsFixed(Run(calls[..n]), calls[n], i);
    assert calls[..n][..k] == calls[..k] && calls[..n][k] == calls[k];
  }

  lemma WasSubmittedLast(calls: seq<Call>, i: nat)
    requires calls != [] && Inv(Run(calls[..|calls| - 1])) && |Run(calls[..|calls| - 1]).requests| <= i < |Run(calls).requests|
    ensures |Run(calls).admissions| == |Run(calls).requests| && WasSubmittedAt(calls, i, |calls| - 1)
  {
    hide Next, ActiveSum, IsLive, WasAdmitted, OnePolicyEach;
    SubmissionIsMade(Run(calls[..|calls| - 1]), calls[|calls| - 1]);
  }

  /** Every request was submitted by some call, and its admission records the tables as they were then. */
  lemma {:induction false} AdmissionsAreTrue(calls: seq<Call>, i: nat) returns (k: nat)
    requires i < |Run(calls).requests|
    ensures |Run(calls).admissions| == |Run(calls).requests| && k < |calls| && WasSubmittedAt(calls, i, k)
  {
    hide Next, WasSubmittedAt, Inv;
    var n := |calls| - 1;
    RunKeepsInv(calls[..n]);
    if i < |Run(calls[..n]).requests| {
      k := AdmissionsAreTrue(calls[..n], i);
      WasSubmittedBefore(calls, i, k);
    } else {
      k := n;
      WasSubmittedLast(calls, i);
    }
  }

  /** At most one live policy governs a workplace and year, so it does not matter which row a query returns first. */
  lemma GoverningPolicyIsUnique(calls: seq<Call>, i: nat, j: nat, workplace: nat, year: int)
    requires IsLive(Run(calls).policies, i, workplace, year) && IsLive(Run(calls).policies, j, workplace, year)
    ensures i == j
  {
    RunKeepsInv(calls);
  }

  /** Requests carry years that never step back in submission order, over all employees. */
  lemma YearsNeverStepBack(calls: seq<Call>, i: nat, j: nat)
    requires i < j < |Run(calls).requests|
    ensures Run(calls).requests[i].year <= Run(calls).requests[j].year
  {
    hide JalaliConversion.CurrentJalaliYear, JalaliConversion.TehranDate, Count;
    var s := Run(calls);
    RunKeepsInv(calls);
    assert WasAdmitted(s, i) && WasAdmitted(s, j);
    JalaliConversion.CurrentYearIsMonotone(s.admissions[i].at, s.admissions[j].at);
  }

  /** Settled and cancelled requests are never touched again. */
  lemma ClosedStaysClosed(s: State, call: Call, i: nat)
    requires i < |s.requests| && (s.requests[i].status == Settled || s.requests[i].status == Cancelled)
    ensures i < |Next(s, call).requests| && Next(s, call).requests[i] == s.requests[i]
  {
    hide YearAt;
  }

  /** Whichever call makes a request active, it was pending and its employee is active at that moment. */
  lemma OnlyStaffGetLoans(s: State, call: Call, i: nat)
    requires i < |Next(s, call).requests| && Next(s, call).requests[i].status == Active
    requires i < |s.requests| ==> s.requests[i].status != Active
    ensures i < |s.requests| && s.requests[i].status == Pending
    ensures s.requests[i].employee in s.employees && s.employees[s.requests[i].employee].active
  {
    hide YearAt;
  }

  // ------------------------------------------------------------------------------------ the active sum under fixed limits

  predicate AreWithin(limits: Limits, kind: Kind, bound: Limits) {
    limits.perYear <= bound.perYear && limits.lifetime <= bound.lifetime && Cap(limits, kind) <= Cap(bound, kind)
  }

  /** No policy call of the run asks for a count or a cap above the bound's. */
  predicate AsksWithin(call: Call, kind: Kind, bound: Limits) {
    match call
    case NewPolicy(_, _, limits, _, _) => AreWithin(limits, kind, bound)
    case ChangePolicy(_, _, c, _) => AreWithin(Changed(Limits(0, 0, 0, 0), c), kind, bound)
    case _ => true
  }

  /** How many requests of one year the bound lets an employee make: the lifetime limit counts every year's. */
  function YearlyRequests(bound: Limits): nat {
    if bound.perYear <= bound.lifetime then bound.perYear else bound.lifetime
  }

  ghost predicate StaysWithin(s: State, kind: Kind, bound: Limits) {
    && (forall p <- s.policies :: AreWithin(p.limits, kind, bound))
    && (forall a <- s.admissions :: AreWithin(a.policy.limits, kind, bound))
  }

  lemma CallStaysWithin(s: State, call: Call, kind: Kind, bound: Limits)
    requires StaysWithin(s, kind, bound) && AsksWithin(call, kind, bound)
    ensures StaysWithin(Next(s, call), kind, bound)
  {
    hide YearAt;
  }

  lemma {:induction false} RunStaysWithin(calls: seq<Call>, kind: Kind, bound: Limits)
    requires forall call <- calls :: AsksWithin(call, kind, bound)
    ensures StaysWithin(Run(calls), kind, bound)
  {
    if calls != [] {
      RunStaysWithin(calls[..|calls| - 1], kind, bound);
      CallStaysWithin(Run(calls[..|calls| - 1]), calls[|calls| - 1], kind, bound);
    }
  }

  lemma TimesIsMonotone(a: nat, b: nat, c: nat)
    requires a <= b
    ensures a * c <= b * c
  {
  }

  /** The requests of a year are among those of the lifetime. */
  lemma {:induction false} YearCountsToLifetime(rs: seq<Request>, employee: nat, year: int, n: nat)
    requires n <= |rs|
    ensures Count(rs, employee, Some(year), n) <= Count(rs, employee, None, n)
  {
    if n > 0 {
      YearCountsToLifetime(rs, employee, year, n - 1);
    }
  }

  lemma CountStaysWithin(s: State, employee: nat, year: int, kind: Kind, bound: Limits)
    requires Inv(s) && StaysWithin(s, kind, bound)
    ensures Count(s.requests, employee, Some(year), |s.requests|) <= YearlyRequests(bound)
  {
    hide YearAt;
    forall i | 0 <= i < |s.requests| && s.requests[i].employee == employee
      ensures s.requests[i].year == year ==> Count(s.requests, employee, Some(year), i + 1) <= bound.perYear
      ensures Count(s.requests, employee, None, i + 1) <= bound.lifetime
    {
      assert WasAdmitted(s, i) && s.admissions[i] in s.admissions;
    }
    CountIsBounded(s.requests, employee, Some(year), bound.perYear, |s.requests|);
    CountIsBounded(s.requests, employee, None, bound.lifetime, |s.requests|);
    YearCountsToLifetime(s.requests, employee, year, |s.requests|);
  }

  lemma AmountStaysWithin(s: State, i: nat, kind: Kind, bound: Limits)
    requires Inv(s) && StaysWithin(s, kind, bound) && i < |s.requests| && s.requests[i].kind == kind
    ensures s.requests[i].amount <= Cap(bound, kind)
  {
    hide YearAt, Count;
    assert WasAdmitted(s, i) && s.admissions[i] in s.admissions;
  }

  /** Whatever the order of the calls, an employee's active sum stays below the smaller count limit times the cap. */
  lemma ActiveSumIsBounded(calls: seq<Call>, employee: nat, year: int, kind: Kind, bound: Limits)
    requires forall call <- calls :: AsksWithin(call, kind, bound)
    ensures ActiveSum(Run(calls).requests, employee, year, kind, |Run(calls).requests|) <= YearlyRequests(bound) * Cap(bound, kind)
  {
    hide Inv, StaysWithin, Run;
    var s := Run(calls);
    RunKeepsInv(calls);
    RunStaysWithin(calls, kind, bound);
    CountStaysWithin(s, employee, year, kind, bound);
    forall i | 0 <= i < |s.requests| && s.requests[i].kind == kind
      ensures s.requests[i].amount <= Cap(bound, kind)
    {
      AmountStaysWithin(s, i, kind, bound);
    }
    SumIsBounded(s.requests, employee, year, kind, Cap(bound, kind), |s.requests|);
    TimesIsMonotone(Count(s.requests, employee, Some(year), |s.requests|), YearlyRequests(bound), Cap(bound, kind));
  }
}

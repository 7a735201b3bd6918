/**
 When the amount cap holds of the active sum. Submission compares the active sum plus the new amount with the cap, but
 activation does not look at the sum again (backend/app/modules/loan/service.py:448-487): requests accepted one by one
 can all be activated later. The cap is therefore kept exactly when the two count limits together allow one request a
 year, or the cap allows nothing.
 */
module LoanCaps {
  import opened Wrappers
  import opened Loans
  import LoanBounds
  import JalaliConversion

  /** The bound's amount cap holds after the run, if the run's policies stay within the bound. */
  ghost predicate CapHolds(calls: seq<Call>, employee: nat, year: int, kind: Kind, bound: Limits) {
    (forall call <- calls :: LoanBounds.AsksWithin(call, kind, bound)) ==>
      ActiveSum(Run(calls).requests, employee, year, kind, |Run(calls).requests|) <= Cap(bound, kind)
  }

  // --------------------------------------------------------------- a run in which one employee uses up the limits

  /** The employee, workplace, year and limits of the run. */
  datatype Scene = Scene(now: nat, year: int, kind: Kind, bound: Limits)

  predicate IsPlayable(c: Scene) {
    YearAt(c.now) == Some(c.year) && MIN_YEAR <= c.year <= MAX_YEAR && Cap(c.bound, c.kind) > 0
  }

  function Governing(c: Scene): Policy {
    Policy(7, c.year, c.bound, true, false, 1)
  }

  function Row(c: Scene, active: bool): Request {
    Request(1, 7, c.kind, Cap(c.bound, c.kind), c.year, if active then Active else Pending, if active then 2 else 1)
  }

  function Rows(c: Scene, k: nat, m: nat): (rs: seq<Request>)
    ensures |rs| == k && forall i :: 0 <= i < k ==> rs[i] == Row(c, i < m)
  {
    seq(k, i => Row(c, i < m))
  }

  function Admissions(c: Scene, k: nat): (admissions: seq<Admission>)
    ensures |admissions| == k && forall i :: 0 <= i < k ==> admissions[i] == Admission(Governing(c), 0, c.now)
  {
    seq(k, _ => Admission(Governing(c), 0, c.now))
  }

  /** After k requests, of which the first m have been activated. */
  function Reached(c: Scene, k: nat, m: nat): State {
    State(map[1 := Employee(7, true)], [Governing(c)], Rows(c, k, m), c.now, Admissions(c, k))
  }

  function Opening(c: Scene): seq<Call> {
    [Wait(c.now), Staff(1, Employee(7, true)), NewPolicy(7, c.year, c.bound, true, true)]
  }

  /** The calls that lead there: all the requests first, then the activations. */
  function Script(c: Scene, k: nat, m: nat): (calls: seq<Call>)
    ensures forall call <- calls :: LoanBounds.AsksWithin(call, c.kind, c.bound)
    decreases k + m
  {
    if m > 0 then Script(c, k, m - 1) + [Activation(m - 1)]
    else if k > 0 then Script(c, k - 1, 0) + [Ask(1, c.kind, Cap(c.bound, c.kind))]
    else Opening(c)
  }

  function Activation(i: nat): Call {
    Move(Activate, i, 1, true)
  }

  lemma {:induction false} RowsCount(c: Scene, k: nat, m: nat, year: Option<int>, n: nat)
    requires n <= k && (year.None? || year == Some(c.year))
    ensures Count(Rows(c, k, m), 1, year, n) == n
  {
    if n > 0 {
      RowsCount(c, k, m, year, n - 1);
    }
  }

  lemma {:induction false} RowsSum(c: Scene, k: nat, m: nat, n: nat)
    requires n <= k
    ensures ActiveSum(Rows(c, k, m), 1, c.year, c.kind, n) == (if n <= m then n else m) * Cap(c.bound, c.kind)
  {
    if n > 0 {
      RowsSum(c, k, m, n - 1);
      var cap := Cap(c.bound, c.kind);
      assert ((n - 1) + 1) * cap == (n - 1) * cap + cap;
    }
  }

  lemma StartIsReached(c: Scene)
    requires IsPlayable(c)
    ensures Run(Script(c, 0, 0)) == Reached(c, 0, 0)
  {
    hide YearAt;
    var calls := Opening(c);
    assert calls[..2][..1] == [Wait(c.now)] && calls[..1][..0] == [];
    assert Run(calls[..1]) == State(map[], [], [], c.now, []);
    assert Run(calls[..2]) == State(map[1 := Employee(7, true)], [], [], c.now, []);
  }

  lemma AskStep(c: Scene, k: nat)
    requires IsPlayable(c) && k < LoanBounds.YearlyRequests(c.bound)
    ensures Next(Reached(c, k, 0), Ask(1, c.kind, Cap(c.bound, c.kind))) == Reached(c, k + 1, 0)
  {
    hide YearAt;
    var s := Reached(c, k, 0);
    RowsCount(c, k, 0, None, k);
    RowsCount(c, k, 0, Some(c.year), k);
    RowsSum(c, k, 0, k);
    assert IsLive(s.policies, 0, 7, c.year);
    assert Rows(c, k, 0) + [Row(c, false)] == Rows(c, k + 1, 0);
    assert Admissions(c, k) + [Admission(Governing(c), 0, c.now)] == Admissions(c, k + 1);
  }

  lemma ActivateStep(c: Scene, k: nat, m: nat)
    requires m < k
    ensures Next(Reached(c, k, m), Activation(m)) == Reached(c, k, m + 1)
  {
  }

  lemma {:induction false} ScriptIsPlayed(c: Scene, k: nat, m: nat)
    requires IsPlayable(c) && k <= LoanBounds.YearlyRequests(c.bound) && m <= k
    ensures Run(Script(c, k, m)) == Reached(c, k, m)
    decreases k + m
  {
    hide Next, YearAt, Reached, Activation;
    var calls := Script(c, k, m);
    if m > 0 {
      ScriptIsPlayed(c, k, m - 1);
      ActivateStep(c, k, m - 1);
      assert calls[..|calls| - 1] == Script(c, k, m - 1);
    } else if k > 0 {
      ScriptIsPlayed(c, k - 1, 0);
      AskStep(c, k - 1);
      assert calls[..|calls| - 1] == Script(c, k - 1, 0);
    } else {
      StartIsReached(c);
    }
  }

  /** The bound of LoanBounds is tight: some run within the limits makes as much active as it allows. */
  lemma BoundIsReached(kind: Kind, bound: Limits) returns (calls: seq<Call>, year: int)
    ensures forall call <- calls :: LoanBounds.AsksWithin(call, kind, bound)
    ensures ActiveSum(Run(calls).requests, 1, year, kind, |Run(calls).requests|) == LoanBounds.YearlyRequests(bound) * Cap(bound, kind)
  {
    hide JalaliConversion.CurrentJalaliYear, JalaliConversion.TehranDate;
    year := 1403;
    if Cap(bound, kind) == 0 {
      calls := [];
    } else {
      var now := JalaliConversion.EveryYearComes(year);
      var c, n := Scene(now, year, kind, bound), LoanBounds.YearlyRequests(bound);
      calls := Script(c, n, n);
      ScriptIsPlayed(c, n, n);
      RowsSum(c, n, n, n);
    }
  }

  /** The active sum respects the cap in every run exactly when at most one request a year is allowed, or a cap of 0. */
  lemma CapIsKeptExactlyWhen(kind: Kind, bound: Limits)
    ensures (forall calls, employee, year :: CapHolds(calls, employee, year, kind, bound)) <==>
            bound.perYear <= 1 || bound.lifetime <= 1 || Cap(bound, kind) == 0
  {
    var n, cap := LoanBounds.YearlyRequests(bound), Cap(bound, kind);
    if n <= 1 || cap == 0 {
      forall calls, employee, year
        ensures CapHolds(calls, employee, year, kind, bound)
      {
        if forall call <- calls :: LoanBounds.AsksWithin(call, kind, bound) {
          LoanBounds.ActiveSumIsBounded(calls, employee, year, kind, bound);
          LoanBounds.TimesIsMonotone(n, if cap == 0 then n else 1, cap);
        }
      }
    } else {
      var calls, year := BoundIsReached(kind, bound);
      LoanBounds.TimesIsMonotone(2, n, cap);
      assert !CapHolds(calls, 1, year, kind, bound);
    }
  }
}

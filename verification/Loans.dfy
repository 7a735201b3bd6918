/**
 Loan policies and requests (backend/app/modules/loan/service.py, repository.py), one call at a time. Amounts are in
 hundredths; a row is identified by its position in its table; scope checks appear as the answer `can` gave.
 */
module Loans {
  import opened Wrappers
  import JalaliConversion

  datatype Kind = Loan | Guarantee

  datatype Status = Pending | Active | Settled | Cancelled

  datatype Limits = Limits(maxLoan: nat, maxGuarantee: nat, perYear: nat, lifetime: nat)

  datatype Policy = Policy(workplace: nat, year: int, limits: Limits, active: bool, deleted: bool, version: nat)

  datatype Request = Request(employee: nat, workplace: nat, kind: Kind, amount: nat, year: int, status: Status, version: nat)

  datatype Employee = Employee(workplace: nat, active: bool)

  /** History: the policy a request was accepted under, the active sum read for it, and the instant. */
  datatype Admission = Admission(policy: Policy, activeSum: nat, at: nat)

  datatype State = State(
    employees: map<nat, Employee>, policies: seq<Policy>, requests: seq<Request>, clock: nat, admissions: seq<Admission>)

  datatype Error =
    | NotFound | Denied | Invalid | Duplicate | StaleVersion | RuleViolation | ClockOutOfRange
    | NoPolicy | LifetimeCount | YearlyCount | LoanCap | GuaranteeCap

  const MIN_YEAR := 1300
  const MAX_YEAR := 1500

  function Cap(limits: Limits, kind: Kind): nat {
    match kind
    case Loan => limits.maxLoan
    case Guarantee => limits.maxGuarantee
  }

  // ------------------------------------------------------------------------------------ queries

  predicate IsLive(policies: seq<Policy>, i: int, workplace: nat, year: int) {
    0 <= i < |policies| && policies[i].workplace == workplace && policies[i].year == year && !policies[i].deleted
  }

  /** `_policy_for` and `get_policy_by_workplace_year` with its `exclude_id`. */
  function LivePolicy(policies: seq<Policy>, workplace: nat, year: int, except: Option<nat>): (r: Option<nat>)
    ensures r.Some? ==> IsLive(policies, r.value, workplace, year) && r != except
    ensures r.None? ==> forall i: nat :: IsLive(policies, i, workplace, year) ==> Some(i) == except
  {
    if policies == [] then None
    else
      var n := |policies| - 1;
      var before := LivePolicy(policies[..n], workplace, year, except);
      assert forall i :: i != n ==> (IsLive(policies, i, workplace, year) <==> IsLive(policies[..n], i, workplace, year));
      if before.Some? then before
      else if IsLive(policies, n, workplace, year) && Some(n) != except then Some(n) else None
  }

  predicate Counts(r: Request, employee: nat, year: Option<int>) {
    r.employee == employee && (year.None? || r.year == year.value)
  }

  /** `count_requests_lifetime` (no year) and `count_requests_year`, over the first n rows: no status is left out. */
  function Count(requests: seq<Request>, employee: nat, year: Option<int>, n: nat): nat
    requires n <= |requests|
  {
    if n == 0 then 0
    else Count(requests, employee, year, n - 1) + if Counts(requests[n - 1], employee, year) then 1 else 0
  }

  predicate IsActiveOf(r: Request, employee: nat, year: int, kind: Kind) {
    r.employee == employee && r.year == year && r.kind == kind && r.status == Active
  }

  /** `sum_active_amount`, over the first n rows. */
  function ActiveSum(requests: seq<Request>, employee: nat, year: int, kind: Kind, n: nat): nat
    requires n <= |requests|
  {
    if n == 0 then 0
    else
      ActiveSum(requests, employee, year, kind, n - 1)
      + if IsActiveOf(requests[n - 1], employee, year, kind) then requests[n - 1].amount else 0
  }

  /** `current_jalali_year`; instants whose Tehran date is past year 9999 overflow. */
  function YearAt(clock: nat): Option<int> {
    if !JalaliConversion.IsPythonDate(JalaliConversion.TehranDate(clock)) then None
    else
      match JalaliConversion.CurrentJalaliYear(clock)
      case Success(year) => Some(year)
      case Failure(_) => None
  }

  // ------------------------------------------------------------------------------------ requests

  function Submit(s: State, employee: nat, kind: Kind, amount: nat): Result<State, Error> {
    if amount == 0 then Failure(Invalid)
    else if employee !in s.employees then Failure(NotFound)
    else if !s.employees[employee].active then Failure(Invalid)
    else if YearAt(s.clock).None? then Failure(ClockOutOfRange)
    else
      var year := YearAt(s.clock).value;
      var workplace := s.employees[employee].workplace;
      var found := LivePolicy(s.policies, workplace, year, None);
      if found.None? || !s.policies[found.value].active then Failure(NoPolicy)
      else
        var policy := s.policies[found.value];
        var n := |s.requests|;
        var activeSum := ActiveSum(s.requests, employee, year, kind, n);
        if Count(s.requests, employee, None, n) >= policy.limits.lifetime then Failure(LifetimeCount)
        else if Count(s.requests, employee, Some(year), n) >= policy.limits.perYear then Failure(YearlyCount)
        else if activeSum + amount > Cap(policy.limits, kind) then Failure(if kind == Loan then LoanCap else GuaranteeCap)
        else
          Success(s.(requests := s.requests + [Request(employee, workplace, kind, amount, year, Pending, 1)],
                     admissions := s.admissions + [Admission(policy, activeSum, s.clock)]))
  }

  datatype Transition = Activate | Settle | Cancel

  function StatusAfter(transition: Transition): Status {
    match transition
    case Activate => Active
    case Settle => Settled
    case Cancel => Cancelled
  }

  predicate Permits(transition: Transition, status: Status) {
    match transition
    case Activate => status == Pending
    case Settle => status == Active
    case Cancel => status == Pending || status == Active
  }

  /** `activate_request`, `settle_request` and `cancel_request`; only activation looks at the employee again. */
  function Transit(s: State, transition: Transition, id: nat, version: nat, granted: bool): Result<State, Error> {
    if id >= |s.requests| || !granted then Failure(NotFound)
    else
      var r := s.requests[id];
      if r.version != version then Failure(StaleVersion)
      else if !Permits(transition, r.status) then Failure(RuleViolation)
      else if transition == Activate && (r.employee !in s.employees || !s.employees[r.employee].active) then Failure(RuleViolation)
      else Success(s.(requests := s.requests[id := r.(status := StatusAfter(transition), version := r.version + 1)]))
  }

  // ------------------------------------------------------------------------------------ policies

  function CreatePolicy(s: State, workplace: nat, year: int, limits: Limits, known: bool, granted: bool): Result<State, Error> {
    if !(MIN_YEAR <= year <= MAX_YEAR) then Failure(Invalid)
    else if !known then Failure(NotFound)
    else if !granted then Failure(Denied)
    else if LivePolicy(s.policies, workplace, year, None).Some? then Failure(Duplicate)
    else Success(s.(policies := s.policies + [Policy(workplace, year, limits, true, false, 1)]))
  }

  /** The fields an update sets; the others are left as they are. */
  datatype Changes = Changes(
    year: Option<int>, maxLoan: Option<nat>, maxGuarantee: Option<nat>, perYear: Option<nat>, lifetime: Option<nat>,
    active: Option<bool>)

  function Or<T>(change: Option<T>, current: T): T {
    match change
    case Some(value) => value
    case None => current
  }

  function Changed(limits: Limits, c: Changes): Limits {
    Limits(Or(c.maxLoan, limits.maxLoan), Or(c.maxGuarantee, limits.maxGuarantee), Or(c.perYear, limits.perYear),
           Or(c.lifetime, limits.lifetime))
  }

  /** `get_policy`, the scope check and the optimistic lock, as `update_policy` and `retire_policy` begin. */
  function PolicyError(s: State, id: nat, version: nat, granted: bool): Option<Error> {
    if id >= |s.policies| || s.policies[id].deleted then Some(NotFound)
    else if !granted then Some(Denied)
    else if s.policies[id].version != version then Some(StaleVersion)
    else None
  }

  function UpdatePolicy(s: State, id: nat, version: nat, c: Changes, granted: bool): Result<State, Error> {
    if c.year.Some? && !(MIN_YEAR <= c.year.value <= MAX_YEAR) then Failure(Invalid)
    else if PolicyError(s, id, version, granted).Some? then Failure(PolicyError(s, id, version, granted).value)
    else
      var p := s.policies[id];
      var year := Or(c.year, p.year);
      if year != p.year && LivePolicy(s.policies, p.workplace, year, Some(id)).Some? then Failure(Duplicate)
      else
        Success(s.(policies := s.policies[id := Policy(p.workplace, year, Changed(p.limits, c), Or(c.active, p.active), p.deleted,
                                                       p.version + 1)]))
  }

  function RetirePolicy(s: State, id: nat, version: nat, granted: bool): Result<State, Error> {
    if PolicyError(s, id, version, granted).Some? then Failure(PolicyError(s, id, version, granted).value)
    else Success(s.(policies := s.policies[id := s.policies[id].(deleted := true, version := s.policies[id].version + 1)]))
  }

  // ------------------------------------------------------------------------------------ runs

  /** The service calls, the passing of time, and what the user module does to an employee. */
  datatype Call =
    | Wait(seconds: nat)
    | Staff(employee: nat, record: Employee)
    | NewPolicy(workplace: nat, year: int, limits: Limits, known: bool, granted: bool)
    | ChangePolicy(id: nat, version: nat, changes: Changes, granted: bool)
    | EndPolicy(id: nat, version: nat, granted: bool)
    | Ask(employee: nat, kind: Kind, amount: nat)
    | Move(transition: Transition, id: nat, version: nat, granted: bool)

  function Perform(s: State, call: Call): Result<State, Error> {
    match call
    case Wait(seconds) => Success(s.(clock := s.clock + seconds))
    case Staff(employee, record) => Success(s.(employees := s.employees[employee := record]))
    case NewPolicy(workplace, year, limits, known, granted) => CreatePolicy(s, workplace, year, limits, known, granted)
    case ChangePolicy(id, version, changes, granted) => UpdatePolicy(s, id, version, changes, granted)
    case EndPolicy(id, version, granted) => RetirePolicy(s, id, version, granted)
    case Ask(employee, kind, amount) => Submit(s, employee, kind, amount)
    case Move(transition, id, version, granted) => Transit(s, transition, id, version, granted)
  }

  function Next(s: State, call: Call): State {
    match Perform(s, call)
    case Success(t) => t
    case Failure(_) => s
  }

  function Run(calls: seq<Call>): State {
    if calls == [] then State(map[], [], [], 0, []) else Next(Run(calls[..|calls| - 1]), calls[|calls| - 1])
  }
}

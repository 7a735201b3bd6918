/**
 Assets with a typed holder and an append-only history (backend/app/modules/warehouse/asset_service.py), one call at a
 time: the row lock of `_load_asset_for_mutation` serialises the calls on an asset. An asset is identified by its
 position in the table, and serial numbers come stripped and in lower case.
 */
module Assets {
  import opened Wrappers

  datatype HolderType = EmployeeHolder | LocationHolder

  /** The three holder columns. */
  datatype Holder = Holder(kind: Option<HolderType>, employee: Option<nat>, location: Option<string>)

  const NOBODY := Holder(None, None, None)

  datatype Asset = Asset(serial: string, holder: Holder, retired: bool, version: nat)

  datatype Action = Created | Updated | Assigned | Returned | Retired

  datatype Entry = Entry(asset: nat, action: Action, from: Holder, to: Holder)

  /** employees: which employees exist, and whether they are active. */
  datatype State = State(employees: map<nat, bool>, assets: seq<Asset>, history: seq<Entry>)

  datatype Error = NotFound | Denied | StaleVersion | RuleViolation | Invalid | Duplicate

  /** The caller's coverage of an asset's anchor: globally, or by covering the anchor's unit. */
  datatype Access = Access(globally: bool, unit: bool)

  datatype Target = ToEmployee(employee: Option<nat>) | ToLocation(location: Option<string>)

  predicate HasSerial(assets: seq<Asset>, i: int, serial: string) {
    0 <= i < |assets| && assets[i].serial == serial && !assets[i].retired
  }

  /** `get_asset_by_serial_norm`. */
  function WithSerial(assets: seq<Asset>, serial: string): (r: Option<nat>)
    ensures r.Some? ==> HasSerial(assets, r.value, serial)
    ensures r.None? ==> forall i :: !HasSerial(assets, i, serial)
  {
    if assets == [] then None
    else
      var n := |assets| - 1;
      var before := WithSerial(assets[..n], serial);
      assert forall i :: i != n ==> (HasSerial(assets, i, serial) <==> HasSerial(assets[..n], i, serial));
      if before.Some? then before else if HasSerial(assets, n, serial) then Some(n) else None
  }

  /** `_load_asset_for_mutation`: only a global caller learns that an asset does not exist. */
  function LoadError(s: State, id: nat, access: Access): Option<Error> {
    if id >= |s.assets| then Some(if access.globally then NotFound else Denied)
    else if access.globally || access.unit then None else Some(Denied)
  }

  /** Overwrites the row, with the next version, and appends the entry. */
  function Log(s: State, id: nat, asset: Asset, action: Action, from: Holder, to: Holder): State
    requires id < |s.assets|
  {
    s.(assets := s.assets[id := asset.(version := asset.version + 1)], history := s.history + [Entry(id, action, from, to)])
  }

  function CreateAsset(s: State, serial: string): Result<State, Error> {
    if WithSerial(s.assets, serial).Some? then Failure(Duplicate)
    else
      Success(s.(assets := s.assets + [Asset(serial, NOBODY, false, 1)],
                 history := s.history + [Entry(|s.assets|, Created, NOBODY, NOBODY)]))
  }

  function UpdateAsset(s: State, id: nat, version: nat, serial: Option<string>, access: Access): Result<State, Error> {
    if LoadError(s, id, access).Some? then Failure(LoadError(s, id, access).value)
    else
      var asset := s.assets[id];
      if asset.version != version then Failure(StaleVersion)
      else if serial.None? || serial.value == asset.serial then Success(Log(s, id, asset, Updated, NOBODY, NOBODY))
      else
        var conflicting := WithSerial(s.assets, serial.value);
        if conflicting.Some? && conflicting.value != id then Failure(Duplicate)
        else Success(Log(s, id, asset.(serial := serial.value), Updated, NOBODY, NOBODY))
  }

  /** A second retirement succeeds and changes nothing; it does not look at the version either. */
  function RetireAsset(s: State, id: nat, version: nat, access: Access): Result<State, Error> {
    if LoadError(s, id, access).Some? then Failure(LoadError(s, id, access).value)
    else
      var asset := s.assets[id];
      if asset.retired then Success(s)
      else if asset.holder.kind.Some? then Failure(RuleViolation)
      else if asset.version != version then Failure(StaleVersion)
      else Success(Log(s, id, asset.(retired := true), Retired, NOBODY, NOBODY))
  }

  /** The holder that a target names; covered is the scope check on an employee's workplace. */
  function HolderFor(s: State, target: Target, covered: bool): Result<Holder, Error> {
    match target
    case ToEmployee(employee) =>
      if employee.None? || employee.value !in s.employees || !s.employees[employee.value] then Failure(Invalid)
      else if !covered then Failure(Denied)
      else Success(Holder(Some(EmployeeHolder), employee, None))
    case ToLocation(location) =>
      if location.None? || location.value == "" then Failure(Invalid)
      else Success(Holder(Some(LocationHolder), None, location))
  }

  /** Retirement is not looked at here. */
  function AssignAsset(s: State, id: nat, version: nat, target: Target, access: Access, covered: bool): Result<State, Error> {
    if LoadError(s, id, access).Some? then Failure(LoadError(s, id, access).value)
    else
      var asset := s.assets[id];
      if asset.version != version then Failure(StaleVersion)
      else if asset.holder.kind.Some? then Failure(RuleViolation)
      else
        match HolderFor(s, target, covered)
        case Failure(e) => Failure(e)
        case Success(holder) => Success(Log(s, id, asset.(holder := holder), Assigned, NOBODY, holder))
  }

  function ReturnAsset(s: State, id: nat, version: nat, access: Access): Result<State, Error> {
    if LoadError(s, id, access).Some? then Failure(LoadError(s, id, access).value)
    else
      var asset := s.assets[id];
      if asset.version != version then Failure(StaleVersion)
      else if asset.holder.kind.None? then Failure(RuleViolation)
      else Success(Log(s, id, asset.(holder := NOBODY), Returned, asset.holder, NOBODY))
  }

  // ------------------------------------------------------------------------------------ runs

  datatype Call =
    | Staff(employee: nat, active: bool)
    | Create(serial: string)
    | Update(id: nat, version: nat, newSerial: Option<string>, access: Access)
    | Retire(id: nat, version: nat, access: Access)
    | Assign(id: nat, version: nat, target: Target, access: Access, covered: bool)
    | Return(id: nat, version: nat, access: Access)

  function Perform(s: State, call: Call): Result<State, Error> {
    match call
    case Staff(employee, active) => Success(s.(employees := s.employees[employee := active]))
    case Create(serial) => CreateAsset(s, serial)
    case Update(id, version, serial, access) => UpdateAsset(s, id, version, serial, access)
    case Retire(id, version, access) => RetireAsset(s, id, version, access)
    case Assign(id, version, target, access, covered) => AssignAsset(s, id, version, target, access, covered)
    case Return(id, version, access) => ReturnAsset(s, id, version, access)
  }

  function Next(s: State, call: Call): State {
    match Perform(s, call)
    case Success(t) => t
    case Failure(_) => s
  }

  function Run(calls: seq<Call>): State {
    if calls == [] then State(map[], [], []) else Next(Run(calls[..|calls| - 1]), calls[|calls| - 1])
  }

  // ------------------------------------------------------------------------------------ reading the history

  /** How many entries the asset has. */
  function Entries(history: seq<Entry>, id: nat): nat {
    if history == [] then 0
    else
      var n := |history| - 1;
      Entries(history[..n], id) + if history[n].asset == id then 1 else 0
  }

  /** The holder that the assignments and returns lead to; None when an entry's `from` is not the holder at that point. */
  function Replay(history: seq<Entry>, id: nat): Option<Holder> {
    if history == [] then Some(NOBODY)
    else
      var n := |history| - 1;
      var e := history[n];
      var before := Replay(history[..n], id);
      if e.asset != id || (e.action != Assigned && e.action != Returned) then before
      else if before == Some(e.from) then Some(e.to) else None
  }

  /** The position of the asset's retirement in the history. */
  predicate IsRetirement(history: seq<Entry>, k: int, id: nat) {
    0 <= k < |history| && history[k].asset == id && history[k].action == Retired
  }

  predicate IsAssignment(history: seq<Entry>, k: int, id: nat) {
    0 <= k < |history| && history[k].asset == id && history[k].action == Assigned
  }

  /** The CHECK on the holder columns. */
  predicate HolderOk(h: Holder) {
    (h.kind == None && h.employee == None && h.location == None) ||
    (h.kind == Some(EmployeeHolder) && h.employee != None && h.location == None) ||
    (h.kind == Some(LocationHolder) && h.employee == None && h.location != None)
  }
}

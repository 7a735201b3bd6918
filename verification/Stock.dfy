/**
 The warehouse services, one call at a time (backend/app/modules/warehouse/service.py, request_service.py): stock
 movements with their low-stock alerts, retirement, and item requests with their fulfilment. Scope checks appear as the
 answer `can` gave; ids of new rows are supplied by the caller and have to be fresh.
 */
module Stock {
  import opened Wrappers
  import opened StockLedger

  datatype Item = Item(minQuantity: nat, retired: bool, version: nat)

  /** A shelf or a warehouse. */
  datatype Place = Place(retired: bool, version: nat)

  datatype Reason = Recovered | PlacementRetired | ItemRetired

  datatype Alert = Alert(key: Key, quantity: int, threshold: int, resolved: Option<Reason>)

  datatype RequestStatus = Pending | Approved | Rejected | Fulfilled

  datatype Line = Line(item: nat, quantity: int)

  datatype Request = Request(status: RequestStatus, version: nat, lines: seq<Line>)

  /** What a retirement ends the alerts of. */
  datatype Retirement = OfItem(item: nat) | OfShelf(shelf: ShelfId) | OfWarehouse(warehouse: nat)

  /** History: every movement with the threshold read for it, and every first-time retirement. */
  datatype Entry = Moved(key: Key, quantity: int, threshold: int) | Retired(what: Retirement)

  datatype State = State(
    items: map<nat, Item>, warehouses: map<nat, Place>, shelves: map<ShelfId, Place>, ledger: Ledger,
    alerts: seq<Alert>, requests: seq<Request>, journal: seq<Entry>)

  datatype Error = NotFound | Denied | StaleVersion | Blocked | InsufficientStock | Invalid | RuleViolation | Duplicate

  /** The caller's coverage of a unit: globally, or by covering the unit itself. */
  datatype Access = Access(globally: bool, unit: bool)

  // ------------------------------------------------------------------------------------ alerts

  predicate IsActive(alerts: seq<Alert>, i: int, key: Key) {
    0 <= i < |alerts| && alerts[i].key == key && alerts[i].resolved.None?
  }

  /** The first unresolved alert of a placement. */
  function FirstActive(alerts: seq<Alert>, key: Key): (r: Option<nat>)
    ensures r.Some? ==> IsActive(alerts, r.value, key)
    ensures r.None? ==> forall i :: !IsActive(alerts, i, key)
  {
    if alerts == [] then None
    else
      var n := |alerts| - 1;
      var before := FirstActive(alerts[..n], key);
      assert forall i :: i != n ==> (IsActive(alerts, i, key) <==> IsActive(alerts[..n], i, key));
      if before.Some? then before else if IsActive(alerts, n, key) then Some(n) else None
  }

  /** `_evaluate_alert`. */
  function Evaluated(alerts: seq<Alert>, key: Key, quantity: int, threshold: int): seq<Alert> {
    var below := quantity < threshold;
    var active := FirstActive(alerts, key);
    if below && active.None? then alerts + [Alert(key, quantity, threshold, None)]
    else if !below && active.Some? then alerts[active.value := alerts[active.value].(resolved := Some(Recovered))]
    else alerts
  }

  predicate Concerns(what: Retirement, key: Key) {
    match what
    case OfItem(item) => key.item == item
    case OfShelf(shelf) => key.shelf == shelf
    case OfWarehouse(warehouse) => key.shelf.warehouse == warehouse
  }

  function ReasonFor(what: Retirement): Reason {
    if what.OfItem? then ItemRetired else PlacementRetired
  }

  /** `_resolve_alerts_for_retirement`. */
  function Ended(alerts: seq<Alert>, what: Retirement): seq<Alert> {
    seq(|alerts|, i requires 0 <= i < |alerts| =>
      if alerts[i].resolved.None? && Concerns(what, alerts[i].key) then alerts[i].(resolved := Some(ReasonFor(what))) else alerts[i])
  }

  // ------------------------------------------------------------------------------------ stock calls

  /** One movement: quantity, ledger row, alert. */
  function Record(s: State, key: Key, kind: Kind, target: int): State
    requires key.item in s.items
  {
    var threshold := s.items[key.item].minQuantity;
    s.(ledger := Ledger(s.ledger.placements[key := target],
                        s.ledger.movements + [Movement(key, kind, target - Quantity(s.ledger, key), target)]),
       alerts := Evaluated(s.alerts, key, target, threshold),
       journal := s.journal + [Moved(key, target, threshold)])
  }

  function ReceiveStock(s: State, item: nat, shelf: ShelfId, quantity: nat, granted: bool): Result<State, Error> {
    if item !in s.items || s.items[item].retired then Failure(NotFound)
    else if shelf !in s.shelves || s.shelves[shelf].retired then Failure(NotFound)
    else if shelf.warehouse !in s.warehouses then Failure(NotFound)
    else if !granted then Failure(Denied)
    else
      var key := Key(shelf, item);
      Success(Record(s, key, Receive, Quantity(s.ledger, key) + quantity))
  }

  /** `_load_stock_bundle`: the error that keeps a placement from being moved, if any. */
  function BundleError(s: State, key: Key, granted: bool): Option<Error> {
    if key !in s.ledger.placements || key.shelf !in s.shelves || key.item !in s.items then Some(Denied)
    else if s.shelves[key.shelf].retired || s.items[key.item].retired then Some(NotFound)
    else if !granted then Some(Denied)
    else None
  }

  function IssueStock(s: State, key: Key, quantity: nat, granted: bool): Result<State, Error> {
    var error := BundleError(s, key, granted);
    if error.Some? then Failure(error.value)
    else if quantity > Quantity(s.ledger, key) then Failure(InsufficientStock)
    else Success(Record(s, key, Issue, Quantity(s.ledger, key) - quantity))
  }

  function AdjustStock(s: State, key: Key, target: nat, granted: bool): Result<State, Error> {
    var error := BundleError(s, key, granted);
    if error.Some? then Failure(error.value)
    else if target == Quantity(s.ledger, key) then Failure(Invalid)
    else Success(Record(s, key, Adjust, target))
  }

  // ------------------------------------------------------------------------------------ master data

  function CreateItem(s: State, item: nat, minQuantity: nat, granted: bool, duplicate: bool): Result<State, Error> {
    if !granted then Failure(Denied)
    else if duplicate || item in s.items then Failure(Duplicate)
    else Success(s.(items := s.items[item := Item(minQuantity, false, 1)]))
  }

  function CreateWarehouse(s: State, warehouse: nat, granted: bool, duplicate: bool): Result<State, Error> {
    if !granted then Failure(Denied)
    else if duplicate || warehouse in s.warehouses then Failure(Duplicate)
    else Success(s.(warehouses := s.warehouses[warehouse := Place(false, 1)]))
  }

  /** `get_warehouse_in_scope` and `get_shelf_in_scope`: a missing row is only admitted to a global caller. */
  function ScopeError(found: bool, access: Access): Option<Error> {
    if access.globally then (if found then None else Some(NotFound))
    else if found && access.unit then None else Some(Denied)
  }

  function CreateShelf(s: State, shelf: ShelfId, access: Access, duplicate: bool): Result<State, Error> {
    var error := ScopeError(shelf.warehouse in s.warehouses, access);
    if error.Some? then Failure(error.value)
    else if s.warehouses[shelf.warehouse].retired then Failure(NotFound)
    else if duplicate || shelf in s.shelves then Failure(Duplicate)
    else Success(s.(shelves := s.shelves[shelf := Place(false, 1)]))
  }

  /** `update_item`, as far as the threshold goes: it does not re-evaluate any alert. */
  function UpdateItem(s: State, item: nat, version: nat, minQuantity: Option<nat>, granted: bool, duplicate: bool): Result<State, Error> {
    if !granted then Failure(Denied)
    else if item !in s.items || s.items[item].retired then Failure(NotFound)
    else if s.items[item].version != version then Failure(StaleVersion)
    else if duplicate then Failure(Duplicate)
    else
      var row := s.items[item];
      var min := if minQuantity.Some? then minQuantity.value else row.minQuantity;
      Success(s.(items := s.items[item := Item(min, false, row.version + 1)]))
  }

  function Retire(s: State, what: Retirement): State {
    s.(alerts := Ended(s.alerts, what), journal := s.journal + [Retired(what)])
  }

  function RetireItem(s: State, item: nat, version: nat, granted: bool): Result<State, Error> {
    if !granted then Failure(Denied)
    else if item !in s.items then Failure(NotFound)
    else
      var row := s.items[item];
      if row.retired then Success(s)
      else if row.version != version then Failure(StaleVersion)
      else Success(Retire(s.(items := s.items[item := row.(retired := true, version := row.version + 1)]), OfItem(item)))
  }

  /** `list_blocking_placements`: placements holding stock on active shelves of the retired place. */
  predicate IsBlocked(s: State, what: Retirement) {
    exists key <- s.ledger.placements ::
      Concerns(what, key) && s.ledger.placements[key] != 0 && key.shelf in s.shelves && !s.shelves[key.shelf].retired
  }

  function RetireShelf(s: State, shelf: ShelfId, version: nat, access: Access): Result<State, Error> {
    var error := ScopeError(shelf in s.shelves, access);
    if error.Some? then Failure(error.value)
    else
      var row := s.shelves[shelf];
      if row.retired then Success(s)
      else if row.version != version then Failure(StaleVersion)
      else if IsBlocked(s, OfShelf(shelf)) then Failure(Blocked)
      else Success(Retire(s.(shelves := s.shelves[shelf := Place(true, row.version + 1)]), OfShelf(shelf)))
  }

  function RetireWarehouse(s: State, warehouse: nat, version: nat, access: Access): Result<State, Error> {
    var error := ScopeError(warehouse in s.warehouses, access);
    if error.Some? then Failure(error.value)
    else
      var row := s.warehouses[warehouse];
      if row.retired then Success(s)
      else if row.version != version then Failure(StaleVersion)
      else if IsBlocked(s, OfWarehouse(warehouse)) then Failure(Blocked)
      else Success(Retire(s.(warehouses := s.warehouses[warehouse := Place(true, row.version + 1)]), OfWarehouse(warehouse)))
  }

  // ------------------------------------------------------------------------------------ item requests

  predicate IsValidLine(s: State, lines: seq<Line>, i: nat)
    requires i < |lines|
  {
    lines[i].quantity > 0 && lines[i].item in s.items && !s.items[lines[i].item].retired &&
    forall j :: 0 <= j < i ==> lines[j].item != lines[i].item
  }

  /** hasPurpose: the description is more than blanks. */
  function CreateRequest(s: State, hasPurpose: bool, lines: seq<Line>): Result<State, Error> {
    if hasPurpose && forall i :: 0 <= i < |lines| ==> IsValidLine(s, lines, i) then
      Success(s.(requests := s.requests + [Request(Pending, 1, lines)]))
    else Failure(Invalid)
  }

  function DecideRequest(s: State, id: nat, version: nat, approve: bool, granted: bool): Result<State, Error> {
    if id >= |s.requests| || !granted then Failure(Denied)
    else
      var r := s.requests[id];
      if r.version != version then Failure(StaleVersion)
      else if r.status != Pending then Failure(RuleViolation)
      else Success(s.(requests := s.requests[id := r.(status := if approve then Approved else Rejected, version := r.version + 1)]))
  }

  /** The placements picked for the lines: every line of the request, each exactly once. */
  function Picks(count: nat, payload: seq<(nat, Key)>): (r: Option<map<nat, Key>>)
    ensures r.Some? ==> forall line: nat :: line in r.value ==> line < count
  {
    if payload == [] then Some(map[])
    else
      var last := payload[|payload| - 1];
      match Picks(count, payload[..|payload| - 1])
      case None => None
      case Some(picks) => if last.0 >= count || last.0 in picks then None else Some(picks[last.0 := last.1])
  }

  predicate CoversEveryLine(count: nat, picks: map<nat, Key>) {
    forall line: nat :: line < count ==> line in picks
  }

  /** One line: the placement checks of `fulfill_request`, then `apply_fulfillment_issue`. */
  function FulfillLine(s: State, line: Line, key: Key, covered: set<nat>): Result<State, Error> {
    if key !in s.ledger.placements || key.shelf !in s.shelves || key.item !in s.items then Failure(Invalid)
    else if key.item != line.item then Failure(Invalid)
    else if s.shelves[key.shelf].retired then Failure(RuleViolation)
    else if key.shelf.warehouse !in covered then Failure(Denied)
    else if line.quantity > Quantity(s.ledger, key) then Failure(InsufficientStock)
    else Success(Record(s, key, Fulfillment, Quantity(s.ledger, key) - line.quantity))
  }

  /** The first n lines in turn, stopping at the first that fails. */
  function FulfillLines(s: State, lines: seq<Line>, picks: map<nat, Key>, covered: set<nat>, n: nat): (r: Result<State, Error>)
    requires n <= |lines| && CoversEveryLine(|lines|, picks)
    ensures r.Success? ==> r.value.requests == s.requests && r.value.items == s.items && r.value.shelves == s.shelves
  {
    if n == 0 then Success(s)
    else
      match FulfillLines(s, lines, picks, covered, n - 1)
      case Failure(e) => Failure(e)
      case Success(t) => FulfillLine(t, lines[n - 1], picks[n - 1], covered)
  }

  function FulfillRequest(s: State, id: nat, version: nat, payload: seq<(nat, Key)>, granted: bool, covered: set<nat>): Result<State, Error> {
    if id >= |s.requests| || !granted then Failure(Denied)
    else
      var r := s.requests[id];
      if r.version != version then Failure(StaleVersion)
      else if r.status != Approved then Failure(RuleViolation)
      else
        var picks := Picks(|r.lines|, payload);
        if picks.None? || !CoversEveryLine(|r.lines|, picks.value) then Failure(Invalid)
        else
          match FulfillLines(s, r.lines, picks.value, covered, |r.lines|)
          case Failure(e) => Failure(e)
          case Success(t) => Success(t.(requests := t.requests[id := r.(status := Fulfilled, version := r.version + 1)]))
  }

  // ------------------------------------------------------------------------------------ runs

  datatype Call =
    | NewItem(item: nat, minQuantity: nat, granted: bool, duplicate: bool)
    | NewWarehouse(warehouse: nat, granted: bool, duplicate: bool)
    | NewShelf(shelf: ShelfId, access: Access, duplicate: bool)
    | SetItem(item: nat, itemVersion: nat, threshold: Option<nat>, granted: bool, duplicate: bool)
    | EndItem(item: nat, itemVersion: nat, granted: bool)
    | EndShelf(shelf: ShelfId, shelfVersion: nat, access: Access)
    | EndWarehouse(warehouse: nat, warehouseVersion: nat, access: Access)
    | Receipt(item: nat, shelf: ShelfId, quantity: nat, granted: bool)
    | Withdrawal(key: Key, quantity: nat, granted: bool)
    | Adjustment(key: Key, quantity: nat, granted: bool)
    | NewRequest(hasPurpose: bool, lines: seq<Line>)
    | Decision(id: nat, requestVersion: nat, approve: bool, granted: bool)
    | Fulfilling(id: nat, requestVersion: nat, payload: seq<(nat, Key)>, granted: bool, covered: set<nat>)

  function Perform(s: State, call: Call): Result<State, Error> {
    match call
    case NewItem(item, min, granted, duplicate) => CreateItem(s, item, min, granted, duplicate)
    case NewWarehouse(warehouse, granted, duplicate) => CreateWarehouse(s, warehouse, granted, duplicate)
    case NewShelf(shelf, access, duplicate) => CreateShelf(s, shelf, access, duplicate)
    case SetItem(item, version, min, granted, duplicate) => UpdateItem(s, item, version, min, granted, duplicate)
    case EndItem(item, version, granted) => RetireItem(s, item, version, granted)
    case EndShelf(shelf, version, access) => RetireShelf(s, shelf, version, access)
    case EndWarehouse(warehouse, version, access) => RetireWarehouse(s, warehouse, version, access)
    case Receipt(item, shelf, quantity, granted) => ReceiveStock(s, item, shelf, quantity, granted)
    case Withdrawal(key, quantity, granted) => IssueStock(s, key, quantity, granted)
    case Adjustment(key, quantity, granted) => AdjustStock(s, key, quantity, granted)
    case NewRequest(hasPurpose, lines) => CreateRequest(s, hasPurpose, lines)
    case Decision(id, version, approve, granted) => DecideRequest(s, id, version, approve, granted)
    case Fulfilling(id, version, payload, granted, covered) => FulfillRequest(s, id, version, payload, granted, covered)
  }

  /** A refused call rolls back. */
  function Next(s: State, call: Call): State {
    match Perform(s, call)
    case Success(t) => t
    case Failure(_) => s
  }

  function Run(s: State, calls: seq<Call>): State {
    if calls == [] then s else Next(Run(s, calls[..|calls| - 1]), calls[|calls| - 1])
  }

  const EMPTY := State(map[], map[], map[], Ledger(map[], []), [], [], [])
}

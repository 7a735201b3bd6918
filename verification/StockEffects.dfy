/**
 What each warehouse call does to the tables, and exactly when it is accepted, in terms of the call's own arguments and
 the rows before it (backend/app/modules/warehouse/service.py, request_service.py).
 */
module StockEffects {
  import opened Wrappers
  import opened StockLedger
  import opened Stock
  import opened StockInvariants

  // ------------------------------------------------------------------------------------ alerts, row by row

  /** The placement's open alert is closed as recovered, or a new one opened; no other row changes. */
  ghost predicate AlertsFollow(before: seq<Alert>, after: seq<Alert>, key: Key, quantity: int, threshold: int) {
    && |before| <= |after|
    && (forall i :: 0 <= i < |before| ==>
          after[i] == if before[i].key == key && before[i].resolved == None && quantity >= threshold
                      then before[i].(resolved := Some(Recovered)) else before[i])
    && (if quantity < threshold && (forall i :: 0 <= i < |before| && before[i].key == key ==> before[i].resolved != None)
        then after[|before|..] == [Alert(key, quantity, threshold, None)] else after[|before|..] == [])
  }

  lemma EvaluationFollows(alerts: seq<Alert>, key: Key, quantity: int, threshold: int)
    requires OneActive(alerts)
    ensures AlertsFollow(alerts, Evaluated(alerts, key, quantity, threshold), key, quantity, threshold)
  {
    var active := FirstActive(alerts, key);
    forall i | 0 <= i < |alerts| && alerts[i].key == key && alerts[i].resolved == None
      ensures active == Some(i)
    {
      assert IsActive(alerts, i, key);
    }
  }

  /** The open alerts of a retired item are closed for the item, those of a retired place for the placement. */
  ghost predicate AlertsEnd(before: seq<Alert>, after: seq<Alert>, what: Retirement) {
    |after| == |before| &&
    forall i :: 0 <= i < |before| ==>
      after[i] ==
      if before[i].resolved == None then
        match what
        case OfItem(item) => if before[i].key.item == item then before[i].(resolved := Some(ItemRetired)) else before[i]
        case OfShelf(shelf) => if before[i].key.shelf == shelf then before[i].(resolved := Some(PlacementRetired)) else before[i]
        case OfWarehouse(warehouse) =>
          if before[i].key.shelf.warehouse == warehouse then before[i].(resolved := Some(PlacementRetired)) else before[i]
      else before[i]
  }

  lemma RetirementEnds(alerts: seq<Alert>, what: Retirement)
    ensures AlertsEnd(alerts, Ended(alerts, what), what)
  {
  }

  // ------------------------------------------------------------------------------------ stock movements

  function Stocked(s: State, key: Key): int {
    if key in s.ledger.placements then s.ledger.placements[key] else 0
  }

  /** One movement of the given kind and amount, its placement's new quantity and its alert; nothing else. */
  ghost predicate IsMoved(s: State, t: State, key: Key, kind: Kind, delta: int)
    requires key.item in s.items
  {
    var resulting, threshold := Stocked(s, key) + delta, s.items[key.item].minQuantity;
    && t.ledger.movements == s.ledger.movements + [Movement(key, kind, delta, resulting)]
    && t.ledger.placements == s.ledger.placements[key := resulting]
    && AlertsFollow(s.alerts, t.alerts, key, resulting, threshold)
    && t.journal == s.journal + [Moved(key, resulting, threshold)]
    && t.items == s.items && t.warehouses == s.warehouses && t.shelves == s.shelves && t.requests == s.requests
  }

  predicate IsOpenItem(s: State, item: nat) {
    item in s.items && !s.items[item].retired
  }

  predicate IsOpenShelf(s: State, shelf: ShelfId) {
    shelf in s.shelves && !s.shelves[shelf].retired
  }

  lemma RecordIsMoved(s: State, key: Key, kind: Kind, target: int)
    requires OneActive(s.alerts) && key.item in s.items
    ensures IsMoved(s, Record(s, key, kind, target), key, kind, target - Stocked(s, key))
  {
    EvaluationFollows(s.alerts, key, target, s.items[key.item].minQuantity);
  }

  /** A receipt adds its quantity to the placement, which it creates when there is none. */
  lemma ReceiptEffect(s: State, item: nat, shelf: ShelfId, quantity: nat, granted: bool)
    requires OneActive(s.alerts)
    ensures var r := ReceiveStock(s, item, shelf, quantity, granted);
            && (r.Success? <==> IsOpenItem(s, item) && IsOpenShelf(s, shelf) && shelf.warehouse in s.warehouses && granted)
            && (r.Success? ==> IsMoved(s, r.value, Key(shelf, item), Receive, quantity))
  {
    if item in s.items {
      RecordIsMoved(s, Key(shelf, item), Receive, Stocked(s, Key(shelf, item)) + quantity);
    }
  }

  predicate CanMove(s: State, key: Key, granted: bool) {
    key in s.ledger.placements && IsOpenShelf(s, key.shelf) && IsOpenItem(s, key.item) && granted
  }

  /** An issue takes its quantity from the placement, if it is there. */
  lemma IssueEffect(s: State, key: Key, quantity: nat, granted: bool)
    requires OneActive(s.alerts)
    ensures var r := IssueStock(s, key, quantity, granted);
            && (r.Success? <==> CanMove(s, key, granted) && quantity <= s.ledger.placements[key])
            && (r == Failure(InsufficientStock) <==> CanMove(s, key, granted) && quantity > s.ledger.placements[key])
            && (r.Success? ==> IsMoved(s, r.value, key, Issue, -(quantity as int)))
  {
    if key.item in s.items {
      RecordIsMoved(s, key, Issue, Stocked(s, key) - quantity);
    }
  }

  /** An adjustment brings the placement to its target, if it is not there already. */
  lemma AdjustmentEffect(s: State, key: Key, target: nat, granted: bool)
    requires OneActive(s.alerts)
    ensures var r := AdjustStock(s, key, target, granted);
            && (r.Success? <==> CanMove(s, key, granted) && target != s.ledger.placements[key])
            && (r.Success? ==> IsMoved(s, r.value, key, Adjust, target - s.ledger.placements[key]) &&
                               r.value.ledger.placements[key] == target)
  {
    if key.item in s.items {
      RecordIsMoved(s, key, Adjust, target);
    }
  }

  // ------------------------------------------------------------------------------------ master data

  /** A new item, warehouse or shelf is active and of version 1. */
  lemma CreationEffect(s: State, item: nat, place: nat, shelf: ShelfId, minQuantity: nat, granted: bool, access: Access, duplicate: bool)
    ensures var r := CreateItem(s, item, minQuantity, granted, duplicate);
            && (r.Success? <==> granted && !duplicate && item !in s.items)
            && (r.Success? ==> r.value == s.(items := s.items[item := Item(minQuantity, false, 1)]))
    ensures var r := CreateWarehouse(s, place, granted, duplicate);
            && (r.Success? <==> granted && !duplicate && place !in s.warehouses)
            && (r.Success? ==> r.value == s.(warehouses := s.warehouses[place := Place(false, 1)]))
    ensures var r := CreateShelf(s, shelf, access, duplicate);
            && (r.Success? <==> shelf.warehouse in s.warehouses && (access.globally || access.unit) &&
                                !s.warehouses[shelf.warehouse].retired && !duplicate && shelf !in s.shelves)
            && (r.Success? ==> r.value == s.(shelves := s.shelves[shelf := Place(false, 1)]))
  {
  }

  /** An update sets the threshold when it is given, for an active item of the version; stock and alerts stay. */
  lemma UpdateEffect(s: State, item: nat, version: nat, minQuantity: Option<nat>, granted: bool, duplicate: bool)
    ensures var r := UpdateItem(s, item, version, minQuantity, granted, duplicate);
            && (r.Success? <==> granted && IsOpenItem(s, item) && s.items[item].version == version && !duplicate)
            && (r.Success? ==> r.value == s.(items := r.value.items) && r.value.items.Keys == s.items.Keys &&
                               (forall other <- s.items :: other != item ==> r.value.items[other] == s.items[other]) &&
                               r.value.items[item] == Item(match minQuantity case Some(q) => q case None => s.items[item].minQuantity,
                                                           false, version + 1))
  {
  }

  /** What a first retirement leaves besides the retired row. */
  ghost predicate OnlyEndsAlerts(s: State, t: State, what: Retirement) {
    AlertsEnd(s.alerts, t.alerts, what) && t.journal == s.journal + [Retired(what)] && t.ledger == s.ledger && t.requests == s.requests
  }

  /** Retiring an item needs no empty stock, and is done once. */
  lemma ItemRetirementEffect(s: State, item: nat, version: nat, granted: bool)
    ensures var r := RetireItem(s, item, version, granted);
            && (r.Success? <==> granted && item in s.items && (s.items[item].retired || s.items[item].version == version))
            && (r.Success? && s.items[item].retired ==> r.value == s)
            && (r.Success? && !s.items[item].retired ==>
                  OnlyEndsAlerts(s, r.value, OfItem(item)) && r.value.shelves == s.shelves && r.value.warehouses == s.warehouses &&
                  r.value.items == s.items[item := Item(s.items[item].minQuantity, true, version + 1)])
  {
    RetirementEnds(s.alerts, OfItem(item));
  }

  /** Retiring a shelf needs every placement on it to be empty. */
  lemma ShelfRetirementEffect(s: State, shelf: ShelfId, version: nat, access: Access)
    ensures var r := RetireShelf(s, shelf, version, access);
            && (r.Success? <==>
                  (shelf in s.shelves && (access.globally || access.unit) &&
                   (s.shelves[shelf].retired ||
                    (s.shelves[shelf].version == version &&
                     forall key <- s.ledger.placements :: key.shelf == shelf ==> s.ledger.placements[key] == 0))))
            && (r.Success? && s.shelves[shelf].retired ==> r.value == s)
            && (r.Success? && !s.shelves[shelf].retired ==>
                  OnlyEndsAlerts(s, r.value, OfShelf(shelf)) && r.value.items == s.items && r.value.warehouses == s.warehouses &&
                  r.value.shelves == s.shelves[shelf := Place(true, version + 1)])
  {
    RetirementEnds(s.alerts, OfShelf(shelf));
    if shelf in s.shelves && !s.shelves[shelf].retired {
      assert IsBlocked(s, OfShelf(shelf)) <==> exists key <- s.ledger.placements :: key.shelf == shelf && s.ledger.placements[key] != 0;
    }
  }

  /** Retiring a warehouse needs every placement on its active shelves to be empty. */
  lemma WarehouseRetirementEffect(s: State, warehouse: nat, version: nat, access: Access)
    ensures var r := RetireWarehouse(s, warehouse, version, access);
            && (r.Success? <==>
                  (warehouse in s.warehouses && (access.globally || access.unit) &&
                   (s.warehouses[warehouse].retired ||
                    (s.warehouses[warehouse].version == version &&
                     forall key <- s.ledger.placements ::
                       key.shelf.warehouse == warehouse && IsOpenShelf(s, key.shelf) ==> s.ledger.placements[key] == 0))))
            && (r.Success? && s.warehouses[warehouse].retired ==> r.value == s)
            && (r.Success? && !s.warehouses[warehouse].retired ==>
                  OnlyEndsAlerts(s, r.value, OfWarehouse(warehouse)) && r.value.items == s.items && r.value.shelves == s.shelves &&
                  r.value.warehouses == s.warehouses[warehouse := Place(true, version + 1)])
  {
    RetirementEnds(s.alerts, OfWarehouse(warehouse));
  }

  // ------------------------------------------------------------------------------------ requests

  /** A new request is pending, of version 1, with its lines; each for a positive quantity of an active item of its own. */
  lemma NewRequestEffect(s: State, hasPurpose: bool, lines: seq<Line>)
    ensures var r := CreateRequest(s, hasPurpose, lines);
            && (r.Success? <==>
                  (hasPurpose && DistinctItems(lines) &&
                   forall i :: 0 <= i < |lines| ==> lines[i].quantity > 0 && IsOpenItem(s, lines[i].item)))
            && (r.Success? ==> r.value == s.(requests := s.requests + [Request(RequestStatus.Pending, 1, lines)]))
  {
    if forall i :: 0 <= i < |lines| ==> IsValidLine(s, lines, i) {
      ValidLinesAreOk(s, lines);
      forall i | 0 <= i < |lines|
        ensures lines[i].quantity > 0 && IsOpenItem(s, lines[i].item)
      {
        assert IsValidLine(s, lines, i);
      }
    } else {
      var i :| 0 <= i < |lines| && !IsValidLine(s, lines, i);
      assert !(lines[i].quantity > 0 && IsOpenItem(s, lines[i].item)) || !DistinctItems(lines);
    }
  }

  /** A decision approves or rejects, as it says, a pending request of its version. */
  lemma DecisionEffect(s: State, id: nat, version: nat, approve: bool, granted: bool)
    ensures var r := DecideRequest(s, id, version, approve, granted);
            && (r.Success? <==> id < |s.requests| && granted && s.requests[id].version == version && s.requests[id].status.Pending?)
            && (r.Success? && approve ==> r.value == s.(requests := s.requests[id := Request(Approved, version + 1, s.requests[id].lines)]))
            && (r.Success? && !approve ==> r.value == s.(requests := s.requests[id := Request(Rejected, version + 1, s.requests[id].lines)]))
  {
  }

  predicate NamesLine(payload: seq<(nat, Key)>, line: nat) {
    exists j :: 0 <= j < |payload| && payload[j].0 == line
  }

  /** The payload names lines of the request only, and none of them twice. */
  predicate IsPicking(count: nat, payload: seq<(nat, Key)>) {
    && (forall j :: 0 <= j < |payload| ==> payload[j].0 < count)
    && (forall j, k :: 0 <= j < k < |payload| ==> payload[j].0 != payload[k].0)
  }

  /** The payload names every line of the request once, and nothing else. */
  predicate IsComplete(count: nat, payload: seq<(nat, Key)>) {
    IsPicking(count, payload) && forall line: nat :: line < count ==> NamesLine(payload, line)
  }

  /** The picks hold what the payload says. */
  predicate ArePicks(picks: map<nat, Key>, payload: seq<(nat, Key)>) {
    && (forall line <- picks :: NamesLine(payload, line))
    && (forall j :: 0 <= j < |payload| ==> payload[j].0 in picks && picks[payload[j].0] == payload[j].1)
  }

  lemma OneMorePick(count: nat, payload: seq<(nat, Key)>, picks: map<nat, Key>)
    requires payload != [] && ArePicks(picks, payload[..|payload| - 1])
    ensures var last := payload[|payload| - 1];
            && (IsPicking(count, payload) <==> IsPicking(count, payload[..|payload| - 1]) && last.0 < count && last.0 !in picks)
            && (last.0 !in picks ==> ArePicks(picks[last.0 := last.1], payload))
  {
    var n := |payload| - 1;
    var last := payload[n];
    assert forall j :: 0 <= j < n ==> payload[..n][j] == payload[j];
    if last.0 in picks {
      assert NamesLine(payload[..n], last.0);
      var j :| 0 <= j < n && payload[..n][j].0 == last.0;
    } else {
      forall line | line in picks[last.0 := last.1]
        ensures NamesLine(payload, line)
      {
        if line == last.0 {
          assert payload[n].0 == line;
        } else {
          assert NamesLine(payload[..n], line);
          var j :| 0 <= j < n && payload[..n][j].0 == line;
          assert payload[j].0 == line;
        }
      }
    }
  }

  lemma {:induction false} PicksAre(count: nat, payload: seq<(nat, Key)>)
    ensures Picks(count, payload).Some? <==> IsPicking(count, payload)
    ensures Picks(count, payload).Some? ==> ArePicks(Picks(count, payload).value, payload)
  {
    hide IsPicking, ArePicks;
    if payload == [] {
      NoPicks(count);
    } else {
      var n := |payload| - 1;
      PicksAre(count, payload[..n]);
      if Picks(count, payload[..n]).Some? {
        OneMorePick(count, payload, Picks(count, payload[..n]).value);
      } else if IsPicking(count, payload) {
        FewerPicks(count, payload);
      }
    }
  }

  lemma NoPicks(count: nat)
    ensures IsPicking(count, []) && ArePicks(map[], [])
  {
  }

  lemma FewerPicks(count: nat, payload: seq<(nat, Key)>)
    requires payload != [] && IsPicking(count, payload)
    ensures IsPicking(count, payload[..|payload| - 1])
  {
  }

  /** What one line needs of the placement picked for it, before anything of the request is moved. */
  predicate LineFits(s: State, line: Line, key: Key, covered: set<nat>) {
    key in s.ledger.placements && key.item == line.item && key.item in s.items && IsOpenShelf(s, key.shelf) &&
    key.shelf.warehouse in covered && line.quantity <= s.ledger.placements[key]
  }

  /** One line takes its quantity from the placement picked for it. */
  lemma LineEffect(s: State, line: Line, key: Key, covered: set<nat>)
    requires OneActive(s.alerts)
    ensures var r := FulfillLine(s, line, key, covered);
            && (r.Success? <==> LineFits(s, line, key, covered))
            && (r.Success? ==> IsMoved(s, r.value, key, Fulfillment, -line.quantity))
  {
    if key.item in s.items {
      RecordIsMoved(s, key, Fulfillment, Stocked(s, key) - line.quantity);
    }
  }

  /** Placement by placement, after the first n lines. */
  ghost predicate LinesTaken(s: State, t: State, lines: seq<Line>, picks: map<nat, Key>, n: nat)
    requires n <= |lines| && CoversEveryLine(|lines|, picks)
  {
    && t.items == s.items && t.shelves == s.shelves && t.warehouses == s.warehouses && t.requests == s.requests
    && t.ledger.placements.Keys == s.ledger.placements.Keys
    && (forall i: nat :: i < n ==> picks[i] in s.ledger.placements &&
                                   t.ledger.placements[picks[i]] == s.ledger.placements[picks[i]] - lines[i].quantity)
    && forall key <- s.ledger.placements :: (forall i: nat :: i < n ==> picks[i] != key) ==>
         t.ledger.placements[key] == s.ledger.placements[key]
  }

  predicate LinesBeforeFit(s: State, lines: seq<Line>, picks: map<nat, Key>, covered: set<nat>, n: nat)
    requires n <= |lines| && CoversEveryLine(|lines|, picks)
  {
    forall i: nat :: i < n ==> LineFits(s, lines[i], picks[i], covered)
  }

  lemma OneMoreLine(s: State, lines: seq<Line>, picks: map<nat, Key>, covered: set<nat>, n: nat)
    requires 0 < n <= |lines| && CoversEveryLine(|lines|, picks)
    ensures LinesBeforeFit(s, lines, picks, covered, n) <==>
            LinesBeforeFit(s, lines, picks, covered, n - 1) && LineFits(s, lines[n - 1], picks[n - 1], covered)
  {
    hide LineFits;
  }

  lemma NoLineTaken(s: State, lines: seq<Line>, picks: map<nat, Key>)
    requires CoversEveryLine(|lines|, picks)
    ensures LinesTaken(s, s, lines, picks, 0)
  {
  }

  lemma {:induction false} LinesFit(s: State, lines: seq<Line>, picks: map<nat, Key>, covered: set<nat>, n: nat)
    requires n <= |lines| && CoversEveryLine(|lines|, picks) && DistinctItems(lines)
    ensures FulfillLines(s, lines, picks, covered, n).Success? <==> LinesBeforeFit(s, lines, picks, covered, n)
    ensures FulfillLines(s, lines, picks, covered, n).Success? ==>
            LinesTaken(s, FulfillLines(s, lines, picks, covered, n).value, lines, picks, n)
  {
    hide FulfillLine, LinesTaken, LineFits, DistinctItems;
    if n == 0 {
      NoLineTaken(s, lines, picks);
    } else {
      LinesFit(s, lines, picks, covered, n - 1);
      OneMoreLine(s, lines, picks, covered, n);
      if FulfillLines(s, lines, picks, covered, n - 1).Success? {
        var t := FulfillLines(s, lines, picks, covered, n - 1).value;
        assert LinesTaken(s, t, lines, picks, n - 1);
        OneMoreFits(s, t, lines, picks, covered, n);
      }
    }
  }

  lemma OneMoreFits(s: State, t: State, lines: seq<Line>, picks: map<nat, Key>, covered: set<nat>, n: nat)
    requires 0 < n <= |lines| && CoversEveryLine(|lines|, picks) && DistinctItems(lines) && LinesTaken(s, t, lines, picks, n - 1)
    requires LinesBeforeFit(s, lines, picks, covered, n - 1)
    ensures FulfillLine(t, lines[n - 1], picks[n - 1], covered).Success? <==> LineFits(s, lines[n - 1], picks[n - 1], covered)
    ensures FulfillLine(t, lines[n - 1], picks[n - 1], covered).Success? ==>
            LinesTaken(s, FulfillLine(t, lines[n - 1], picks[n - 1], covered).value, lines, picks, n)
  {
    hide Evaluated;
    var key := picks[n - 1];
    if key.item == lines[n - 1].item {
      forall i: nat | i < n - 1
        ensures picks[i] != key
      {
        assert LineFits(s, lines[i], picks[i], covered);
      }
    }
  }

  /** Every line fits the placement that the payload picks for it. */
  predicate PayloadFits(s: State, lines: seq<Line>, payload: seq<(nat, Key)>, covered: set<nat>)
    requires forall j :: 0 <= j < |payload| ==> payload[j].0 < |lines|
  {
    forall j :: 0 <= j < |payload| ==> LineFits(s, lines[payload[j].0], payload[j].1, covered)
  }

  predicate Picked(payload: seq<(nat, Key)>, key: Key) {
    exists j :: 0 <= j < |payload| && payload[j].1 == key
  }

  /** Each picked placement gives its line's quantity, and no other placement changes. */
  ghost predicate PayloadTaken(before: map<Key, int>, after: map<Key, int>, lines: seq<Line>, payload: seq<(nat, Key)>)
    requires forall j :: 0 <= j < |payload| ==> payload[j].0 < |lines|
  {
    && after.Keys == before.Keys
    && (forall j :: 0 <= j < |payload| ==>
          (payload[j].1 in before && after[payload[j].1] == before[payload[j].1] - lines[payload[j].0].quantity))
    && (forall key <- before :: !Picked(payload, key) ==> after[key] == before[key])
  }

  lemma PayloadIsPicks(s: State, lines: seq<Line>, picks: map<nat, Key>, payload: seq<(nat, Key)>, covered: set<nat>)
    requires IsPicking(|lines|, payload) && CoversEveryLine(|lines|, picks) && ArePicks(picks, payload)
    ensures IsComplete(|lines|, payload)
    ensures LinesBeforeFit(s, lines, picks, covered, |lines|) <==> PayloadFits(s, lines, payload, covered)
  {
    hide LineFits;
    forall line: nat | line < |lines|
      ensures NamesLine(payload, line)
    {
      assert line in picks;
    }
    if PayloadFits(s, lines, payload, covered) {
      forall i: nat | i < |lines|
        ensures LineFits(s, lines[i], picks[i], covered)
      {
        assert NamesLine(payload, i);
        var j :| 0 <= j < |payload| && payload[j].0 == i;
      }
    }
  }

  lemma TakenByPayload(s: State, t: State, lines: seq<Line>, picks: map<nat, Key>, payload: seq<(nat, Key)>)
    requires IsComplete(|lines|, payload) && CoversEveryLine(|lines|, picks) && ArePicks(picks, payload)
    requires LinesTaken(s, t, lines, picks, |lines|)
    ensures PayloadTaken(s.ledger.placements, t.ledger.placements, lines, payload)
  {
    forall key | key in s.ledger.placements && !Picked(payload, key)
      ensures t.ledger.placements[key] == s.ledger.placements[key]
    {
      forall i: nat | i < |lines|
        ensures picks[i] != key
      {
        assert NamesLine(payload, i);
        var j :| 0 <= j < |payload| && payload[j].0 == i;
        assert payload[j].1 == picks[i];
      }
    }
  }

  lemma IncompleteMisses(count: nat, picks: map<nat, Key>, payload: seq<(nat, Key)>)
    requires IsComplete(count, payload) && ArePicks(picks, payload)
    ensures CoversEveryLine(count, picks)
  {
    forall line: nat | line < count
      ensures line in picks
    {
      assert NamesLine(payload, line);
    }
  }

  /**
   A fulfilment is accepted exactly when the payload names every line once and each line, by itself, fits the placement
   picked for it; it then takes each line's quantity from that placement and no other, and marks the request.
   */
  lemma FulfillmentEffect(s: State, id: nat, version: nat, payload: seq<(nat, Key)>, granted: bool, covered: set<nat>)
    requires RequestsOk(s)
    ensures var r := FulfillRequest(s, id, version, payload, granted, covered);
            && (r.Success? <==>
                  (id < |s.requests| && granted && s.requests[id].version == version && s.requests[id].status.Approved? &&
                   IsComplete(|s.requests[id].lines|, payload) && PayloadFits(s, s.requests[id].lines, payload, covered)))
            && (r.Success? ==>
                  && r.value.requests == s.requests[id := Request(Fulfilled, version + 1, s.requests[id].lines)]
                  && r.value.items == s.items && r.value.shelves == s.shelves && r.value.warehouses == s.warehouses
                  && PayloadTaken(s.ledger.placements, r.value.ledger.placements, s.requests[id].lines, payload))
  {
    hide FulfillLines, Picks, ArePicks, LineFits, PayloadFits, PayloadTaken, NamesLine, CoversEveryLine;
    if id < |s.requests| && s.requests[id].status.Approved? {
      var lines := s.requests[id].lines;
      assert s.requests[id] in s.requests;
      PicksAre(|lines|, payload);
      var picks := Picks(|lines|, payload);
      if picks.Some? {
        if CoversEveryLine(|lines|, picks.value) {
          LinesFit(s, lines, picks.value, covered, |lines|);
          PayloadIsPicks(s, lines, picks.value, payload, covered);
          if FulfillLines(s, lines, picks.value, covered, |lines|).Success? {
            AllTaken(s, lines, picks.value, payload, covered);
          }
        } else if IsComplete(|lines|, payload) {
          IncompleteMisses(|lines|, picks.value, payload);
        }
      }
    }
  }

  lemma AllTaken(s: State, lines: seq<Line>, picks: map<nat, Key>, payload: seq<(nat, Key)>, covered: set<nat>)
    requires IsComplete(|lines|, payload) && CoversEveryLine(|lines|, picks) && ArePicks(picks, payload) && DistinctItems(lines)
    requires FulfillLines(s, lines, picks, covered, |lines|).Success?
    ensures var t := FulfillLines(s, lines, picks, covered, |lines|).value;
            PayloadTaken(s.ledger.placements, t.ledger.placements, lines, payload) && t.warehouses == s.warehouses
  {
    hide FulfillLines, ArePicks, PayloadTaken, IsComplete, LineFits;
    LinesFit(s, lines, picks, covered, |lines|);
    TakenByPayload(s, FulfillLines(s, lines, picks, covered, |lines|).value, lines, picks, payload);
  }
}

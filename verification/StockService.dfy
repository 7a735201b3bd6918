/**
 The warehouse services as the repository runs them: row by row in the session, then one commit, or a rollback when an
 error is raised half way. Each is proved to have the effect that Stock gives its call.
 */
module StockService {
  import opened Wrappers
  import opened StockLedger
  import opened Stock
  import StockInvariants

  class Session {
    var items: map<nat, Item>
    var warehouses: map<nat, Place>
    var shelves: map<ShelfId, Place>
    var placements: map<Key, int>
    var movements: seq<Movement>
    var alerts: seq<Alert>
    var requests: seq<Request>
    var journal: seq<Entry>
    var committed: State

    function View(): State
      reads this
    {
      State(items, warehouses, shelves, Ledger(placements, movements), alerts, requests, journal)
    }

    /** Nothing is uncommitted, and what is committed satisfies the invariant of every run. */
    ghost predicate Valid()
      reads this
    {
      View() == committed && StockInvariants.Inv(committed)
    }

    constructor ()
      ensures Valid() && committed == EMPTY
    {
      items, warehouses, shelves, placements := map[], map[], map[], map[];
      movements, alerts, requests, journal := [], [], [], [];
      committed := EMPTY;
    }

    method Commit()
      modifies this`committed
      ensures committed == View()
    {
      committed := View();
    }

    method Rollback()
      modifies this
      ensures View() == committed == old(committed)
    {
      items, warehouses, shelves := committed.items, committed.warehouses, committed.shelves;
      placements, movements := committed.ledger.placements, committed.ledger.movements;
      alerts, requests, journal := committed.alerts, committed.requests, committed.journal;
    }

    /** `_evaluate_alert`. */
    method EvaluateAlert(key: Key, threshold: int)
      requires key in placements
      modifies this`alerts
      ensures alerts == Evaluated(old(alerts), key, placements[key], threshold)
    {
      var below := placements[key] < threshold;
      var active := FirstActive(alerts, key);
      if below && active.None? {
        alerts := alerts + [Alert(key, placements[key], threshold, None)];
      } else if !below && active.Some? {
        var i := active.value;
        alerts := alerts[i := alerts[i].(resolved := Some(Recovered))];
      }
    }

    /** `_resolve_alerts_for_retirement`: the loop over the matching rows. */
    method ResolveAlertsForRetirement(what: Retirement)
      modifies this`alerts, this`journal
      ensures alerts == Ended(old(alerts), what) && journal == old(journal) + [Retired(what)]
    {
      for i := 0 to |alerts|
        invariant |alerts| == |old(alerts)| && journal == old(journal)
        invariant forall k :: 0 <= k < |alerts| ==> alerts[k] == if k < i then Ended(old(alerts), what)[k] else old(alerts)[k]
      {
        if alerts[i].resolved.None? && Concerns(what, alerts[i].key) {
          alerts := alerts[i := alerts[i].(resolved := Some(ReasonFor(what)))];
        }
      }
      assert alerts == Ended(old(alerts), what);
      journal := journal + [Retired(what)];
    }

    /** Overwrites the quantity, appends the movement and re-evaluates the alert. */
    method Move(key: Key, kind: Kind, target: int)
      requires key in placements && key.item in items
      modifies this`placements, this`movements, this`alerts, this`journal
      ensures View() == Record(old(View()), key, kind, target)
    {
      var delta := target - placements[key];
      placements := placements[key := target];
      movements := movements + [Movement(key, kind, delta, target)];
      EvaluateAlert(key, items[key.item].minQuantity);
      journal := journal + [Moved(key, target, items[key.item].minQuantity)];
    }

    method ReceiveStock(item: nat, shelf: ShelfId, quantity: nat, granted: bool) returns (error: Option<Error>)
      requires Valid()
      modifies this
      ensures Valid()
      ensures HasOutcome(old(committed), Stock.ReceiveStock(old(committed), item, shelf, quantity, granted), committed, error)
    {
      hide StockInvariants.Inv;
      StockInvariants.CallKeepsInv(committed, Receipt(item, shelf, quantity, granted));
      if item !in items || items[item].retired || shelf !in shelves || shelves[shelf].retired || shelf.warehouse !in warehouses {
        return Some(NotFound);
      }
      if !granted {
        return Some(Denied);
      }
      var key := Key(shelf, item);
      ghost var before := View();
      if key !in placements {
        placements := placements[key := 0];
      }
      assert before.ledger.placements[key := Quantity(before.ledger, key) + quantity]
             == placements[key := placements[key] + quantity];
      Move(key, Receive, placements[key] + quantity);
      Commit();
      error := None;
    }

    method IssueStock(key: Key, quantity: nat, granted: bool) returns (error: Option<Error>)
      requires Valid()
      modifies this
      ensures Valid()
      ensures HasOutcome(old(committed), Stock.IssueStock(old(committed), key, quantity, granted), committed, error)
    {
      hide StockInvariants.Inv;
      StockInvariants.CallKeepsInv(committed, Withdrawal(key, quantity, granted));
      error := BundleError(View(), key, granted);
      if error.Some? {
        return;
      }
      if quantity > placements[key] {
        return Some(InsufficientStock);
      }
      Move(key, Issue, placements[key] - quantity);
      Commit();
    }

    method AdjustStock(key: Key, target: nat, granted: bool) returns (error: Option<Error>)
      requires Valid()
      modifies this
      ensures Valid()
      ensures HasOutcome(old(committed), Stock.AdjustStock(old(committed), key, target, granted), committed, error)
    {
      hide StockInvariants.Inv;
      StockInvariants.CallKeepsInv(committed, Adjustment(key, target, granted));
      error := BundleError(View(), key, granted);
      if error.Some? {
        return;
      }
      if target == placements[key] {
        return Some(Invalid);
      }
      Move(key, Adjust, target);
      Commit();
    }

    /** `update_item`: the threshold changes, the alerts do not. */
    method UpdateItem(item: nat, version: nat, minQuantity: Option<nat>, granted: bool, duplicate: bool) returns (error: Option<Error>)
      requires Valid()
      modifies this
      ensures Valid()
      ensures HasOutcome(old(committed), Stock.UpdateItem(old(committed), item, version, minQuantity, granted, duplicate), committed, error)
    {
      hide StockInvariants.Inv;
      StockInvariants.CallKeepsInv(committed, SetItem(item, version, minQuantity, granted, duplicate));
      if !granted {
        return Some(Denied);
      }
      if item !in items || items[item].retired {
        return Some(NotFound);
      }
      if items[item].version != version {
        return Some(StaleVersion);
      }
      var row := items[item];
      if minQuantity.Some? {
        row := row.(minQuantity := minQuantity.value);
      }
      row := row.(version := row.version + 1);
      items := items[item := row];
      if duplicate {
        Rollback();
        return Some(Duplicate);
      }
      Commit();
      error := None;
    }

    method RetireItem(item: nat, version: nat, granted: bool) returns (error: Option<Error>)
      requires Valid()
      modifies this
      ensures Valid()
      ensures HasOutcome(old(committed), Stock.RetireItem(old(committed), item, version, granted), committed, error)
    {
      hide StockInvariants.Inv;
      StockInvariants.CallKeepsInv(committed, EndItem(item, version, granted));
      if !granted {
        return Some(Denied);
      }
      if item !in items {
        return Some(NotFound);
      }
      if !items[item].retired {
        if items[item].version != version {
          return Some(StaleVersion);
        }
        items := items[item := items[item].(retired := true, version := items[item].version + 1)];
        ResolveAlertsForRetirement(OfItem(item));
      }
      Commit();
      error := None;
    }

    method RetireShelf(shelf: ShelfId, version: nat, access: Access) returns (error: Option<Error>)
      requires Valid()
      modifies this
      ensures Valid()
      ensures HasOutcome(old(committed), Stock.RetireShelf(old(committed), shelf, version, access), committed, error)
    {
      hide StockInvariants.Inv;
      StockInvariants.CallKeepsInv(committed, EndShelf(shelf, version, access));
      error := ScopeError(shelf in shelves, access);
      if error.Some? {
        return;
      }
      if !shelves[shelf].retired {
        if shelves[shelf].version != version {
          return Some(StaleVersion);
        }
        if IsBlocked(View(), OfShelf(shelf)) {
          return Some(Blocked);
        }
        shelves := shelves[shelf := Place(true, shelves[shelf].version + 1)];
        ResolveAlertsForRetirement(OfShelf(shelf));
      }
      Commit();
    }

    method RetireWarehouse(warehouse: nat, version: nat, access: Access) returns (error: Option<Error>)
      requires Valid()
      modifies this
      ensures Valid()
      ensures HasOutcome(old(committed), Stock.RetireWarehouse(old(committed), warehouse, version, access), committed, error)
    {
      hide StockInvariants.Inv;
      StockInvariants.CallKeepsInv(committed, EndWarehouse(warehouse, version, access));
      error := ScopeError(warehouse in warehouses, access);
      if error.Some? {
        return;
      }
      if !warehouses[warehouse].retired {
        if warehouses[warehouse].version != version {
          return Some(StaleVersion);
        }
        if IsBlocked(View(), OfWarehouse(warehouse)) {
          return Some(Blocked);
        }
        warehouses := warehouses[warehouse := Place(true, warehouses[warehouse].version + 1)];
        ResolveAlertsForRetirement(OfWarehouse(warehouse));
      }
      Commit();
    }

    /** `create_request`: validates line by line, remembering the items seen. */
    method CreateRequest(hasPurpose: bool, lines: seq<Line>) returns (error: Option<Error>)
      requires Valid()
      modifies this
      ensures Valid()
      ensures HasOutcome(old(committed), Stock.CreateRequest(old(committed), hasPurpose, lines), committed, error)
    {
      hide StockInvariants.Inv;
      StockInvariants.CallKeepsInv(committed, NewRequest(hasPurpose, lines));
      if !hasPurpose {
        return Some(Invalid);
      }
      var seen: set<nat> := {};
      for i := 0 to |lines|
        invariant View() == committed == old(committed)
        invariant forall k :: 0 <= k < i ==> IsValidLine(committed, lines, k)
        invariant seen == set k | 0 <= k < i :: lines[k].item
      {
        var line := lines[i];
        if line.quantity <= 0 || line.item !in items || items[line.item].retired || line.item in seen {
          assert !IsValidLine(committed, lines, i);
          return Some(Invalid);
        }
        assert forall j :: 0 <= j < i ==> lines[j].item in seen;
        seen := seen + {line.item};
      }
      requests := requests + [Request(Pending, 1, lines)];
      Commit();
      error := None;
    }

    method DecideRequest(id: nat, version: nat, approve: bool, granted: bool) returns (error: Option<Error>)
      requires Valid()
      modifies this
      ensures Valid()
      ensures HasOutcome(old(committed), Stock.DecideRequest(old(committed), id, version, approve, granted), committed, error)
    {
      hide StockInvariants.Inv;
      StockInvariants.CallKeepsInv(committed, Decision(id, version, approve, granted));
      if id >= |requests| || !granted {
        return Some(Denied);
      }
      if requests[id].version != version {
        return Some(StaleVersion);
      }
      if requests[id].status != Pending {
        return Some(RuleViolation);
      }
      var request := requests[id].(status := if approve then Approved else Rejected);
      request := request.(version := request.version + 1);
      requests := requests[id := request];
      Commit();
      error := None;
    }

    /** `apply_fulfillment_issue`, after the placement checks of `fulfill_request`: no commit of its own. */
    method FulfillLine(line: Line, key: Key, covered: set<nat>) returns (error: Option<Error>)
      modifies this`placements, this`movements, this`alerts, this`journal
      ensures HasOutcome(old(View()), Stock.FulfillLine(old(View()), line, key, covered), View(), error)
    {
      if key !in placements || key.shelf !in shelves || key.item !in items || key.item != line.item {
        return Some(Invalid);
      }
      if shelves[key.shelf].retired {
        return Some(RuleViolation);
      }
      if key.shelf.warehouse !in covered {
        return Some(Denied);
      }
      if line.quantity > placements[key] {
        return Some(InsufficientStock);
      }
      Move(key, Fulfillment, placements[key] - line.quantity);
      error := None;
    }

    /** The loop that fills `picks` from the payload. */
    method BuildPicks(count: nat, payload: seq<(nat, Key)>) returns (r: Option<map<nat, Key>>)
      ensures r == Picks(count, payload)
    {
      var picks: map<nat, Key> := map[];
      for i := 0 to |payload|
        invariant Picks(count, payload[..i]) == Some(picks)
      {
        assert payload[..i + 1][..i] == payload[..i];
        if payload[i].0 >= count || payload[i].0 in picks {
          PicksFailureIsFinal(count, payload, i + 1);
          return None;
        }
        picks := picks[payload[i].0 := payload[i].1];
      }
      assert payload[..|payload|] == payload;
      r := Some(picks);
    }

    /** The loop over the request's lines, up to the first that fails. */
    method FulfillEveryLine(lines: seq<Line>, picks: map<nat, Key>, covered: set<nat>) returns (error: Option<Error>)
      requires CoversEveryLine(|lines|, picks)
      modifies this`placements, this`movements, this`alerts, this`journal
      ensures var r := FulfillLines(old(View()), lines, picks, covered, |lines|);
              if error.None? then r == Success(View()) else r == Failure(error.value)
    {
      hide Stock.FulfillLine, FulfillLines;
      ghost var start := View();
      NoLineYet(start, lines, picks, covered);
      for i := 0 to |lines|
        invariant FulfillLines(start, lines, picks, covered, i) == Success(View())
      {
        OneLineMore(start, lines, picks, covered, i);
        error := FulfillLine(lines[i], picks[i], covered);
        if error.Some? {
          FailureIsFinal(start, lines, picks, covered, i + 1, |lines|);
          return;
        }
      }
      error := None;
    }

    /** `fulfill_request`: all lines in one transaction; whichever line fails, nothing of it is committed. */
    method FulfillRequest(id: nat, version: nat, payload: seq<(nat, Key)>, granted: bool, covered: set<nat>) returns (error: Option<Error>)
      requires Valid()
      modifies this
      ensures Valid()
      ensures HasOutcome(old(committed), Stock.FulfillRequest(old(committed), id, version, payload, granted, covered), committed, error)
    {
      hide StockInvariants.Inv, FulfillLines, Picks;
      StockInvariants.CallKeepsInv(committed, Fulfilling(id, version, payload, granted, covered));
      if id >= |requests| || !granted {
        return Some(Denied);
      }
      var request := requests[id];
      if request.version != version {
        return Some(StaleVersion);
      }
      if request.status != Approved {
        return Some(RuleViolation);
      }
      var picks := BuildPicks(|request.lines|, payload);
      if picks.None? || !CoversEveryLine(|request.lines|, picks.value) {
        return Some(Invalid);
      }
      error := FulfillEveryLine(request.lines, picks.value, covered);
      if error.Some? {
        Rollback();
        return;
      }
      requests := requests[id := request.(status := Fulfilled, version := request.version + 1)];
      Commit();
    }
  }

  lemma NoLineYet(s: State, lines: seq<Line>, picks: map<nat, Key>, covered: set<nat>)
    requires CoversEveryLine(|lines|, picks)
    ensures FulfillLines(s, lines, picks, covered, 0) == Success(s)
  {
  }

  lemma OneLineMore(s: State, lines: seq<Line>, picks: map<nat, Key>, covered: set<nat>, i: nat)
    requires i < |lines| && CoversEveryLine(|lines|, picks) && FulfillLines(s, lines, picks, covered, i).Success?
    ensures FulfillLines(s, lines, picks, covered, i + 1)
            == Stock.FulfillLine(FulfillLines(s, lines, picks, covered, i).value, lines[i], picks[i], covered)
  {
  }

  lemma {:induction false} FailureIsFinal(s: State, lines: seq<Line>, picks: map<nat, Key>, covered: set<nat>, i: nat, n: nat)
    requires i <= n <= |lines| && CoversEveryLine(|lines|, picks) && FulfillLines(s, lines, picks, covered, i).Failure?
    ensures FulfillLines(s, lines, picks, covered, n) == FulfillLines(s, lines, picks, covered, i)
  {
    if i < n {
      FailureIsFinal(s, lines, picks, covered, i, n - 1);
    }
  }

  lemma {:induction false} PicksFailureIsFinal(count: nat, payload: seq<(nat, Key)>, i: nat)
    requires i <= |payload| && Picks(count, payload[..i]).None?
    ensures Picks(count, payload).None?
    decreases |payload|
  {
    if i == |payload| {
      assert payload[..i] == payload;
    } else {
      var shorter := payload[..|payload| - 1];
      assert shorter[..i] == payload[..i];
      PicksFailureIsFinal(count, shorter, i);
    }
  }
}

/** What every run of warehouse calls keeps. */
module StockInvariants {
  import opened Wrappers
  import opened StockLedger
  import opened Stock

  // ------------------------------------------------------------------------------------ alert episodes

  /** Read off the history: the placement's last movement left it low, and nothing it belongs to retired since. */
  predicate EpisodeOpen(journal: seq<Entry>, key: Key) {
    if journal == [] then false
    else
      match journal[|journal| - 1]
      case Moved(k, quantity, threshold) =>
        if k == key then quantity < threshold else EpisodeOpen(journal[..|journal| - 1], key)
      case Retired(what) => !Concerns(what, key) && EpisodeOpen(journal[..|journal| - 1], key)
  }

  predicate HasActive(alerts: seq<Alert>, key: Key) {
    FirstActive(alerts, key).Some?
  }

  ghost predicate OneActive(alerts: seq<Alert>) {
    forall key: Key, i, j :: IsActive(alerts, i, key) && IsActive(alerts, j, key) ==> i == j
  }

  ghost predicate AlertsOk(s: State) {
    OneActive(s.alerts) && forall key: Key :: HasActive(s.alerts, key) <==> EpisodeOpen(s.journal, key)
  }

  lemma ActiveIs(alerts: seq<Alert>, i: nat, key: Key)
    requires IsActive(alerts, i, key)
    ensures HasActive(alerts, key)
  {
  }

  lemma EvaluatedKeepsAlerts(alerts: seq<Alert>, key: Key, quantity: int, threshold: int)
    requires OneActive(alerts)
    ensures var r := Evaluated(alerts, key, quantity, threshold);
            OneActive(r) && (HasActive(r, key) <==> quantity < threshold) &&
            forall k: Key :: k != key ==> (HasActive(r, k) <==> HasActive(alerts, k))
  {
    var r := Evaluated(alerts, key, quantity, threshold);
    var below := quantity < threshold;
    var active := FirstActive(alerts, key);
    assert forall k: Key, i: int :: k != key ==> (IsActive(r, i, k) <==> IsActive(alerts, i, k));
    forall k: Key | k != key
      ensures HasActive(r, k) <==> HasActive(alerts, k)
    {
      if HasActive(r, k) { ActiveIs(alerts, FirstActive(r, k).value, k); }
      if HasActive(alerts, k) { ActiveIs(r, FirstActive(alerts, k).value, k); }
    }
    if below && active.None? {
      ActiveIs(r, |alerts|, key);
      assert forall i :: IsActive(r, i, key) ==> i == |alerts| || IsActive(alerts, i, key);
    } else if !below && active.Some? {
      assert forall i :: IsActive(r, i, key) ==> IsActive(alerts, i, key);
    }
  }

  lemma EndedKeepsAlerts(alerts: seq<Alert>, what: Retirement)
    requires OneActive(alerts)
    ensures OneActive(Ended(alerts, what))
    ensures forall key: Key :: HasActive(Ended(alerts, what), key) <==> HasActive(alerts, key) && !Concerns(what, key)
  {
    var r := Ended(alerts, what);
    assert forall key: Key, i :: IsActive(r, i, key) <==> IsActive(alerts, i, key) && !Concerns(what, key);
    forall key: Key
      ensures HasActive(r, key) <==> HasActive(alerts, key) && !Concerns(what, key)
    {
      if HasActive(r, key) { ActiveIs(alerts, FirstActive(r, key).value, key); }
      if HasActive(alerts, key) && !Concerns(what, key) { ActiveIs(r, FirstActive(alerts, key).value, key); }
    }
  }

  // ------------------------------------------------------------------------------------ the other invariants

  /** A placement on a retired shelf holds nothing. */
  predicate RetiredShelvesAreEmpty(s: State) {
    forall key <- s.ledger.placements :: key.shelf in s.shelves && (s.shelves[key.shelf].retired ==> s.ledger.placements[key] == 0)
  }

  predicate ReferencesOk(s: State) {
    (forall key <- s.ledger.placements :: key.item in s.items) && forall shelf <- s.shelves :: shelf.warehouse in s.warehouses
  }

  predicate DistinctItems(lines: seq<Line>) {
    forall i, j :: 0 <= i < j < |lines| ==> lines[i].item != lines[j].item
  }

  predicate RequestsOk(s: State) {
    forall r <- s.requests :: DistinctItems(r.lines) && forall line <- r.lines :: line.quantity > 0 && line.item in s.items
  }

  /** What fulfilment took of an item. */
  function FulfilledDelta(movements: seq<Movement>, item: nat): int {
    if movements == [] then 0
    else
      var last := movements[|movements| - 1];
      FulfilledDelta(movements[..|movements| - 1], item)
      + if last.kind == Fulfillment && last.key.item == item then last.delta else 0
  }

  function LineTotal(lines: seq<Line>, item: nat): int {
    if lines == [] then 0
    else
      var last := lines[|lines| - 1];
      LineTotal(lines[..|lines| - 1], item) + if last.item == item then last.quantity else 0
  }

  function Granted(r: Request, item: nat): int {
    if r.status == Fulfilled then LineTotal(r.lines, item) else 0
  }

  /** What fulfilled requests asked of an item. */
  function GrantedTotal(requests: seq<Request>, item: nat): int {
    if requests == [] then 0
    else GrantedTotal(requests[..|requests| - 1], item) + Granted(requests[|requests| - 1], item)
  }

  ghost predicate Conserved(s: State) {
    forall item: nat :: FulfilledDelta(s.ledger.movements, item) == -GrantedTotal(s.requests, item)
  }

  ghost predicate Inv(s: State) {
    LedgerOk(s.ledger) && AlertsOk(s) && RetiredShelvesAreEmpty(s) && ReferencesOk(s) && RequestsOk(s) && Conserved(s)
  }

  lemma {:induction false} GrantedTotalUpdate(requests: seq<Request>, id: nat, r: Request, item: nat)
    requires id < |requests|
    ensures GrantedTotal(requests[id := r], item) == GrantedTotal(requests, item) - Granted(requests[id], item) + Granted(r, item)
    decreases |requests|
  {
    var n := |requests| - 1;
    if id == n {
      assert requests[id := r][..n] == requests[..n];
    } else {
      GrantedTotalUpdate(requests[..n], id, r, item);
      assert requests[id := r][..n] == requests[..n][id := r];
    }
  }

  lemma GrantedTotalAppend(requests: seq<Request>, r: Request, item: nat)
    ensures GrantedTotal(requests + [r], item) == GrantedTotal(requests, item) + Granted(r, item)
  {
  }

  lemma FulfilledDeltaAppend(movements: seq<Movement>, m: Movement, item: nat)
    ensures FulfilledDelta(movements + [m], item) ==
            FulfilledDelta(movements, item) + if m.kind == Fulfillment && m.key.item == item then m.delta else 0
  {
  }

  /** Everything but conservation, which a fulfilment restores only when its request is marked. */
  ghost predicate StockOk(s: State) {
    LedgerOk(s.ledger) && AlertsOk(s) && RetiredShelvesAreEmpty(s) && ReferencesOk(s) && RequestsOk(s)
  }

  lemma RecordKeepsStock(s: State, key: Key, kind: Kind, target: int)
    requires StockOk(s) && target >= 0
    requires key.item in s.items && key.shelf in s.shelves && !s.shelves[key.shelf].retired
    ensures StockOk(Record(s, key, kind, target))
  {
    var t := Record(s, key, kind, target);
    AppendKeepsLedger(s.ledger, key, kind, target);
    EvaluatedKeepsAlerts(s.alerts, key, target, s.items[key.item].minQuantity);
    assert t.journal[..|s.journal|] == s.journal;
    forall k: Key
      ensures HasActive(t.alerts, k) <==> EpisodeOpen(t.journal, k)
    {
      assert HasActive(s.alerts, k) <==> EpisodeOpen(s.journal, k);
    }
  }

  lemma RecordKeepsConserved(s: State, key: Key, kind: Kind, target: int)
    requires Conserved(s) && key.item in s.items && kind != Fulfillment
    ensures Conserved(Record(s, key, kind, target))
  {
  }

  lemma QuantityIsNat(s: State, key: Key)
    requires LedgerOk(s.ledger)
    ensures Quantity(s.ledger, key) >= 0
  {
  }

  lemma MovementKeepsInv(s: State, key: Key, kind: Kind, target: int)
    requires Inv(s) && target >= 0 && kind != Fulfillment
    requires key.item in s.items && key.shelf in s.shelves && !s.shelves[key.shelf].retired
    ensures Inv(Record(s, key, kind, target))
  {
    RecordKeepsStock(s, key, kind, target);
    RecordKeepsConserved(s, key, kind, target);
  }

  /** A retirement, with the retired flag set where it may be. */
  lemma RetireKeepsInv(s: State, t: State, what: Retirement)
    requires Inv(s) && t.ledger == s.ledger && t.requests == s.requests
    requires t.alerts == Ended(s.alerts, what) && t.journal == s.journal + [Retired(what)]
    requires RetiredShelvesAreEmpty(t) && ReferencesOk(t) && RequestsOk(t)
    ensures Inv(t)
  {
    EndedKeepsAlerts(s.alerts, what);
    assert t.journal[..|s.journal|] == s.journal;
    forall k: Key
      ensures HasActive(t.alerts, k) <==> EpisodeOpen(t.journal, k)
    {
      assert HasActive(s.alerts, k) <==> EpisodeOpen(s.journal, k);
    }
  }

  // ------------------------------------------------------------------------------------ fulfilment

  /** The movement that fulfilled line i: from the picked placement, of the line's own item, for its quantity. */
  predicate LineMoved(m: Movement, line: Line, key: Key) {
    m.kind == Fulfillment && m.key == key && m.key.item == line.item && m.delta == -line.quantity
  }

  /** After n lines: one fulfilment movement per line, in order, and nothing else. */
  predicate LinesMoved(s: State, t: State, lines: seq<Line>, picks: map<nat, Key>, n: nat)
    requires n <= |lines| && CoversEveryLine(|lines|, picks)
  {
    && |t.ledger.movements| == |s.ledger.movements| + n
    && t.ledger.movements[..|s.ledger.movements|] == s.ledger.movements
    && forall i: nat :: i < n ==> LineMoved(t.ledger.movements[|s.ledger.movements|..][i], lines[i], picks[i])
  }

  lemma {:induction false} FulfillLinesIsRight(s: State, lines: seq<Line>, picks: map<nat, Key>, covered: set<nat>, n: nat)
    requires StockOk(s) && n <= |lines| && CoversEveryLine(|lines|, picks)
    requires FulfillLines(s, lines, picks, covered, n).Success?
    ensures var t := FulfillLines(s, lines, picks, covered, n).value;
            StockOk(t) && LinesMoved(s, t, lines, picks, n) && t.requests == s.requests &&
            forall item: nat :: FulfilledDelta(t.ledger.movements, item) == FulfilledDelta(s.ledger.movements, item) - LineTotal(lines[..n], item)
  {
    hide StockOk, FulfillLine, LinesMoved;
    if n == 0 {
      NoLinesMoved(s, lines, picks);
      assert LineTotal(lines[..0], 0) == 0;
    } else {
      FulfillLinesIsRight(s, lines, picks, covered, n - 1);
      var t := FulfillLines(s, lines, picks, covered, n - 1).value;
      var u := FulfillLines(s, lines, picks, covered, n).value;
      var line, key := lines[n - 1], picks[n - 1];
      LineIsRight(t, line, key, covered);
      OneMoreLineMoved(s, t, u, lines, picks, n, Quantity(t.ledger, key) - line.quantity);
      assert lines[..n][..n - 1] == lines[..n - 1];
    }
  }

  lemma NoLinesMoved(s: State, lines: seq<Line>, picks: map<nat, Key>)
    requires CoversEveryLine(|lines|, picks)
    ensures LinesMoved(s, s, lines, picks, 0)
  {
  }

  lemma OneMoreLineMoved(s: State, t: State, u: State, lines: seq<Line>, picks: map<nat, Key>, n: nat, resulting: int)
    requires 0 < n <= |lines| && CoversEveryLine(|lines|, picks) && LinesMoved(s, t, lines, picks, n - 1)
    requires picks[n - 1].item == lines[n - 1].item
    requires u.ledger.movements == t.ledger.movements + [Movement(picks[n - 1], Fulfillment, -lines[n - 1].quantity, resulting)]
    ensures LinesMoved(s, u, lines, picks, n)
  {
  }

  lemma LineKeepsStock(t: State, line: Line, key: Key, covered: set<nat>)
    requires StockOk(t) && FulfillLine(t, line, key, covered).Success?
    ensures StockOk(FulfillLine(t, line, key, covered).value)
  {
    hide LedgerOk, AlertsOk, Evaluated;
    RecordKeepsStock(t, key, Fulfillment, Quantity(t.ledger, key) - line.quantity);
  }

  lemma LineIsRight(t: State, line: Line, key: Key, covered: set<nat>)
    requires StockOk(t) && FulfillLine(t, line, key, covered).Success?
    ensures var u := FulfillLine(t, line, key, covered).value;
            StockOk(u) && u.requests == t.requests && key.item == line.item &&
            u.ledger.movements == t.ledger.movements + [Movement(key, Fulfillment, -line.quantity, Quantity(t.ledger, key) - line.quantity)] &&
            forall item: nat :: FulfilledDelta(u.ledger.movements, item) ==
                                FulfilledDelta(t.ledger.movements, item) - if line.item == item then line.quantity else 0
  {
    hide StockOk, Evaluated, FulfilledDelta;
    var target := Quantity(t.ledger, key) - line.quantity;
    LineKeepsStock(t, line, key, covered);
    forall item: nat
      ensures FulfilledDelta(Record(t, key, Fulfillment, target).ledger.movements, item) ==
              FulfilledDelta(t.ledger.movements, item) - if line.item == item then line.quantity else 0
    {
      FulfilledDeltaAppend(t.ledger.movements, Movement(key, Fulfillment, -line.quantity, target), item);
    }
  }

  lemma FulfillmentKeepsInv(s: State, id: nat, version: nat, payload: seq<(nat, Key)>, granted: bool, covered: set<nat>)
    requires Inv(s) && FulfillRequest(s, id, version, payload, granted, covered).Success?
    ensures Inv(FulfillRequest(s, id, version, payload, granted, covered).value)
  {
    hide FulfillLines, LedgerOk, OneActive;
    var r := s.requests[id];
    var picks := Picks(|r.lines|, payload).value;
    FulfillLinesIsRight(s, r.lines, picks, covered, |r.lines|);
    var t := FulfillLines(s, r.lines, picks, covered, |r.lines|).value;
    var done := r.(status := Fulfilled, version := r.version + 1);
    var u := t.(requests := t.requests[id := done]);
    assert r.lines[..|r.lines|] == r.lines;
    assert r in s.requests;
    forall item: nat
      ensures FulfilledDelta(u.ledger.movements, item) == -GrantedTotal(u.requests, item)
    {
      GrantedTotalUpdate(s.requests, id, done, item);
    }
    RequestChangeKeepsStock(t, id, done);
  }

  lemma RequestChangeKeepsStock(s: State, id: nat, r: Request)
    requires StockOk(s) && id < |s.requests| && r.lines == s.requests[id].lines
    ensures StockOk(s.(requests := s.requests[id := r]))
  {
  }

  // ------------------------------------------------------------------------------------ every call

  lemma NewRequestKeepsInv(s: State, hasPurpose: bool, lines: seq<Line>)
    requires Inv(s) && CreateRequest(s, hasPurpose, lines).Success?
    ensures Inv(CreateRequest(s, hasPurpose, lines).value)
  {
    hide LedgerOk, EpisodeOpen, HasActive, OneActive;
    forall item: nat
      ensures GrantedTotal(s.requests + [Request(Pending, 1, lines)], item) == GrantedTotal(s.requests, item)
    {
      GrantedTotalAppend(s.requests, Request(Pending, 1, lines), item);
    }
    ValidLinesAreOk(s, lines);
  }

  lemma DecisionKeepsInv(s: State, id: nat, version: nat, approve: bool, granted: bool)
    requires Inv(s) && DecideRequest(s, id, version, approve, granted).Success?
    ensures Inv(DecideRequest(s, id, version, approve, granted).value)
  {
    hide LedgerOk, EpisodeOpen, HasActive, OneActive;
    var t := DecideRequest(s, id, version, approve, granted).value;
    RequestChangeKeepsStock(s, id, t.requests[id]);
    forall item: nat
      ensures GrantedTotal(t.requests, item) == GrantedTotal(s.requests, item)
    {
      GrantedTotalUpdate(s.requests, id, t.requests[id], item);
    }
  }

  lemma ValidLinesAreOk(s: State, lines: seq<Line>)
    requires forall i :: 0 <= i < |lines| ==> IsValidLine(s, lines, i)
    ensures DistinctItems(lines) && forall line <- lines :: line.quantity > 0 && line.item in s.items
  {
    forall i, j | 0 <= i < j < |lines|
      ensures lines[i].item != lines[j].item
    {
      assert IsValidLine(s, lines, j);
    }
    forall line | line in lines
      ensures line.quantity > 0 && line.item in s.items
    {
      var i :| 0 <= i < |lines| && lines[i] == line;
      assert IsValidLine(s, lines, i);
    }
  }

  lemma StockCallKeepsInv(s: State, call: Call)
    requires Inv(s) && Perform(s, call).Success? && (call.Receipt? || call.Withdrawal? || call.Adjustment?)
    ensures Inv(Perform(s, call).value)
  {
    hide Record, AlertsOk, OneActive, Conserved, RequestsOk;
    match call
    case Receipt(item, shelf, quantity, _) =>
      QuantityIsNat(s, Key(shelf, item));
      MovementKeepsInv(s, Key(shelf, item), Receive, Quantity(s.ledger, Key(shelf, item)) + quantity);
    case Withdrawal(key, quantity, _) =>
      MovementKeepsInv(s, key, Issue, Quantity(s.ledger, key) - quantity);
    case Adjustment(key, target, _) =>
      MovementKeepsInv(s, key, Adjust, target);
  }

  lemma RetirementKeepsInv(s: State, call: Call)
    requires Inv(s) && Perform(s, call).Success? && (call.EndItem? || call.EndShelf? || call.EndWarehouse?)
    ensures Inv(Perform(s, call).value)
  {
    var t := Perform(s, call).value;
    if t != s {
      match call
      case EndItem(item, _, _) =>
        RetireKeepsInv(s, t, OfItem(item));
      case EndShelf(shelf, _, _) =>
        forall key | key in t.ledger.placements
          ensures key.shelf in t.shelves && (t.shelves[key.shelf].retired ==> t.ledger.placements[key] == 0)
        {
          if key.shelf == shelf {
            assert Concerns(OfShelf(shelf), key);
          }
        }
        RetireKeepsInv(s, t, OfShelf(shelf));
      case EndWarehouse(warehouse, _, _) =>
        RetireKeepsInv(s, t, OfWarehouse(warehouse));
    }
  }

  /** Every accepted call keeps the invariant. */
  lemma CallKeepsInv(s: State, call: Call)
    requires Inv(s)
    ensures Inv(Next(s, call))
  {
    if Perform(s, call).Success? {
      match call
      case Fulfilling(id, version, payload, granted, covered) =>
        FulfillmentKeepsInv(s, id, version, payload, granted, covered);
      case NewRequest(hasPurpose, lines) => NewRequestKeepsInv(s, hasPurpose, lines);
      case Decision(id, version, approve, granted) => DecisionKeepsInv(s, id, version, approve, granted);
      case Receipt(_, _, _, _) => StockCallKeepsInv(s, call);
      case Withdrawal(_, _, _) => StockCallKeepsInv(s, call);
      case Adjustment(_, _, _) => StockCallKeepsInv(s, call);
      case EndItem(_, _, _) => RetirementKeepsInv(s, call);
      case EndShelf(_, _, _) => RetirementKeepsInv(s, call);
      case EndWarehouse(_, _, _) => RetirementKeepsInv(s, call);
      case _ => MasterDataKeepsInv(s, call);
    }
  }

  lemma MasterDataKeepsInv(s: State, call: Call)
    requires Inv(s) && Perform(s, call).Success?
    requires call.NewItem? || call.NewWarehouse? || call.NewShelf? || call.SetItem?
    ensures Inv(Perform(s, call).value)
  {
  }

  lemma {:induction false} RunKeepsInv(calls: seq<Call>)
    ensures Inv(Run(EMPTY, calls))
  {
    if calls == [] {
      assert FirstActive([], Key(ShelfId(0, 0), 0)).None?;
    } else {
      RunKeepsInv(calls[..|calls| - 1]);
      CallKeepsInv(Run(EMPTY, calls[..|calls| - 1]), calls[|calls| - 1]);
    }
  }

  // ------------------------------------------------------------------------------------ what every run promises

  /** The quantity is the sum of the placement's deltas, every recorded result a prefix sum, none negative. */
  lemma LedgerExplainsStock(calls: seq<Call>, key: Key, j: nat)
    requires j < |Run(EMPTY, calls).ledger.movements|
    ensures var l := Run(EMPTY, calls).ledger;
            Quantity(l, key) == Balance(l.movements, key) >= 0 &&
            l.movements[j].resulting == Balance(l.movements[..j], l.movements[j].key) + l.movements[j].delta >= 0
  {
    RunKeepsInv(calls);
    assert IsPrefixSum(Run(EMPTY, calls).ledger.movements, j);
  }

  /** A placement has an unresolved alert exactly during a low-stock episode, and never two. */
  lemma AlertsFollowEpisodes(calls: seq<Call>, key: Key, i: int, j: int)
    ensures var s := Run(EMPTY, calls);
            (HasActive(s.alerts, key) <==> EpisodeOpen(s.journal, key)) &&
            (IsActive(s.alerts, i, key) && IsActive(s.alerts, j, key) ==> i == j)
  {
    RunKeepsInv(calls);
  }

  /** Fulfilment movements of an item add up to minus the quantities on its fulfilled request lines. */
  lemma FulfillmentConserves(calls: seq<Call>, item: nat)
    ensures var s := Run(EMPTY, calls);
            FulfilledDelta(s.ledger.movements, item) == -GrantedTotal(s.requests, item)
  {
    RunKeepsInv(calls);
  }

  /** Retired shelves stay empty. */
  lemma RetiredShelfHoldsNothing(calls: seq<Call>, key: Key)
    requires var s := Run(EMPTY, calls); key in s.ledger.placements && key.shelf in s.shelves && s.shelves[key.shelf].retired
    ensures Run(EMPTY, calls).ledger.placements[key] == 0
  {
    RunKeepsInv(calls);
  }

  lemma FulfillmentMoves(s: State, id: nat, version: nat, payload: seq<(nat, Key)>, granted: bool, covered: set<nat>)
    requires StockOk(s) && FulfillRequest(s, id, version, payload, granted, covered).Success?
    ensures var lines := s.requests[id].lines;
            var picks := Picks(|lines|, payload);
            DistinctItems(lines) && picks.Some? && CoversEveryLine(|lines|, picks.value) &&
            LinesMoved(s, FulfillRequest(s, id, version, payload, granted, covered).value, lines, picks.value, |lines|)
  {
    hide FulfillLines, LedgerOk, AlertsOk;
    var r := s.requests[id];
    assert r in s.requests;
    FulfillLinesIsRight(s, r.lines, Picks(|r.lines|, payload).value, covered, |r.lines|);
  }

  /** A fulfilment accepted in any reachable state meets each line in full, in order, from the placement picked for it. */
  lemma FulfillmentMovesEveryLine(calls: seq<Call>, id: nat, version: nat, payload: seq<(nat, Key)>, granted: bool, covered: set<nat>, i: nat)
    requires FulfillRequest(Run(EMPTY, calls), id, version, payload, granted, covered).Success?
    requires i < |Run(EMPTY, calls).requests[id].lines|
    ensures var s := Run(EMPTY, calls);
            var movements := FulfillRequest(s, id, version, payload, granted, covered).value.ledger.movements;
            var lines, before := s.requests[id].lines, |s.ledger.movements|;
            && |movements| == before + |lines| && movements[..before] == s.ledger.movements
            && var moved, picks := movements[before..], Picks(|lines|, payload);
            && picks.Some? && i in picks.value
            && moved[i].kind == Fulfillment && moved[i].key == picks.value[i]
            && moved[i].key.item == lines[i].item && moved[i].delta == -lines[i].quantity
            && forall j :: i < j < |lines| ==> moved[i].key != moved[j].key
  {
    hide FulfillLines, StockOk, LedgerOk, AlertsOk, Conserved, Run;
    RunKeepsInv(calls);
    var s := Run(EMPTY, calls);
    InvIsStock(s);
    FulfillmentMoves(s, id, version, payload, granted, covered);
    var lines := s.requests[id].lines;
    var picks := Picks(|lines|, payload).value;
    var moved := FulfillRequest(s, id, version, payload, granted, covered).value.ledger.movements[|s.ledger.movements|..];
    assert LineMoved(moved[i], lines[i], picks[i]);
    forall j | i < j < |lines|
      ensures moved[i].key != moved[j].key
    {
      assert LineMoved(moved[j], lines[j], picks[j]);
    }
  }

  lemma InvIsStock(s: State)
    requires Inv(s)
    ensures StockOk(s)
  {
  }

  // ------------------------------------------------------------------------------------ what a call may touch

  /** The movement is on an active shelf, and on an active item unless it fulfils a request. */
  predicate IsOnActivePlacement(s: State, m: Movement) {
    m.key.shelf in s.shelves && !s.shelves[m.key.shelf].retired && m.key.item in s.items &&
    (m.kind != Fulfillment ==> !s.items[m.key.item].retired)
  }

  lemma {:induction false} FulfilledLinesAreActive(s: State, lines: seq<Line>, picks: map<nat, Key>, covered: set<nat>, n: nat)
    requires n <= |lines| && CoversEveryLine(|lines|, picks) && FulfillLines(s, lines, picks, covered, n).Success?
    ensures var t := FulfillLines(s, lines, picks, covered, n).value;
            |t.ledger.movements| >= |s.ledger.movements| &&
            forall j :: |s.ledger.movements| <= j < |t.ledger.movements| ==> IsOnActivePlacement(s, t.ledger.movements[j])
  {
    if n > 0 {
      FulfilledLinesAreActive(s, lines, picks, covered, n - 1);
    }
  }

  /** No call moves stock on a retired shelf, and only a fulfilment moves a retired item. */
  lemma MovementsAreOnActivePlacements(s: State, call: Call, j: nat)
    requires |s.ledger.movements| <= j < |Next(s, call).ledger.movements|
    ensures IsOnActivePlacement(s, Next(s, call).ledger.movements[j])
  {
    if call.Fulfilling? {
      var lines := s.requests[call.id].lines;
      FulfilledLinesAreActive(s, lines, Picks(|lines|, call.payload).value, call.covered, |lines|);
    }
  }

  predicate MayBecome(before: RequestStatus, after: RequestStatus) {
    before == after || (before == Pending && (after == Approved || after == Rejected)) || (before == Approved && after == Fulfilled)
  }

  /** Requests only move from pending to approved or rejected and from approved to fulfilled; their lines never change. */
  lemma RequestsMoveForward(s: State, call: Call, i: nat)
    requires i < |s.requests|
    ensures i < |Next(s, call).requests|
    ensures var before, after := s.requests[i], Next(s, call).requests[i];
            MayBecome(before.status, after.status) && after.lines == before.lines &&
            after.version == before.version + if after.status == before.status then 0 else 1
  {
    hide Evaluated, Ended;
  }

  // ------------------------------------------------------------------------------------ calls as locked moves

  /** The locked writes of a fulfilment, line by line. */
  function LineMoves(lines: seq<Line>, picks: map<nat, Key>, n: nat): seq<Move>
    requires n <= |lines| && CoversEveryLine(|lines|, picks) && forall line <- lines :: line.quantity > 0
  {
    if n == 0 then []
    else
      assert lines[n - 1] in lines;
      LineMoves(lines, picks, n - 1) + [Move(picks[n - 1], Fulfillment, lines[n - 1].quantity)]
  }

  lemma {:induction false} FulfillLinesAreMoves(s: State, lines: seq<Line>, picks: map<nat, Key>, covered: set<nat>, n: nat)
    requires n <= |lines| && CoversEveryLine(|lines|, picks) && forall line <- lines :: line.quantity > 0
    requires FulfillLines(s, lines, picks, covered, n).Success?
    ensures ApplyAll(s.ledger, LineMoves(lines, picks, n)) == Some(FulfillLines(s, lines, picks, covered, n).value.ledger)
  {
    if n > 0 {
      FulfillLinesAreMoves(s, lines, picks, covered, n - 1);
      assert lines[n - 1] in lines;
      assert LineMoves(lines, picks, n)[..|LineMoves(lines, picks, n)| - 1] == LineMoves(lines, picks, n - 1);
      OneLineIsAMove(FulfillLines(s, lines, picks, covered, n - 1).value, lines[n - 1], picks[n - 1], covered);
    }
  }

  lemma OneLineIsAMove(s: State, line: Line, key: Key, covered: set<nat>)
    requires line.quantity > 0 && FulfillLine(s, line, key, covered).Success?
    ensures Apply(s.ledger, Move(key, Fulfillment, line.quantity)) == Some(FulfillLine(s, line, key, covered).value.ledger)
  {
  }

  lemma {:induction false} LineMovesAre(lines: seq<Line>, picks: map<nat, Key>, n: nat)
    requires n <= |lines| && CoversEveryLine(|lines|, picks) && forall line <- lines :: line.quantity > 0
    ensures |LineMoves(lines, picks, n)| == n
    ensures forall i: nat :: i < n ==> LineMoves(lines, picks, n)[i] == Move(picks[i], Fulfillment, lines[i].quantity)
  {
    if n > 0 {
      LineMovesAre(lines, picks, n - 1);
    }
  }

  /** The locked moves that a call asks for. */
  ghost predicate AreMovesOf(s: State, call: Call, moves: seq<Move>) {
    match call
    case Receipt(item, shelf, quantity, _) => moves == [Move(Key(shelf, item), Receive, quantity)]
    case Withdrawal(key, quantity, _) => moves == [Move(key, Issue, quantity)]
    case Adjustment(key, target, _) => moves == [Move(key, Adjust, target)]
    case Fulfilling(id, _, payload, _, _) =>
      id < |s.requests| && |moves| == |s.requests[id].lines| && Picks(|moves|, payload).Some? &&
      forall i: nat :: i < |moves| ==>
        i in Picks(|moves|, payload).value && s.requests[id].lines[i].quantity > 0 &&
        moves[i] == Move(Picks(|moves|, payload).value[i], Fulfillment, s.requests[id].lines[i].quantity)
    case _ => moves == []
  }

  lemma FulfillmentIsMoves(s: State, id: nat, version: nat, payload: seq<(nat, Key)>, granted: bool, covered: set<nat>)
    returns (moves: seq<Move>)
    requires StockOk(s) && FulfillRequest(s, id, version, payload, granted, covered).Success?
    ensures AreMovesOf(s, Fulfilling(id, version, payload, granted, covered), moves)
    ensures ApplyAll(s.ledger, moves) == Some(FulfillRequest(s, id, version, payload, granted, covered).value.ledger)
  {
    hide FulfillLines, AlertsOk, LedgerOk, Picks, LineMoves, ApplyAll;
    var r := s.requests[id];
    assert r in s.requests;
    var picks := Picks(|r.lines|, payload).value;
    moves := LineMoves(r.lines, picks, |r.lines|);
    FulfillLinesAreMoves(s, r.lines, picks, covered, |r.lines|);
    LineMovesAre(r.lines, picks, |r.lines|);
    assert forall i: nat :: i < |r.lines| ==> r.lines[i] in r.lines;
  }

  /** The writes of an accepted stock call are the moves it asks for, which StockTransactions interleaves. */
  lemma AcceptedCallIsMoves(s: State, call: Call) returns (moves: seq<Move>)
    requires StockOk(s) && Perform(s, call).Success?
    requires call.Receipt? || call.Withdrawal? || call.Adjustment? || call.Fulfilling?
    ensures AreMovesOf(s, call, moves)
    ensures ApplyAll(s.ledger, moves) == Some(Perform(s, call).value.ledger)
  {
    hide FulfillRequest, AlertsOk, LedgerOk, Picks;
    match call
    case Receipt(item, shelf, quantity, _) =>
      moves := [Move(Key(shelf, item), Receive, quantity)];
      assert moves[..0] == [];
    case Withdrawal(key, quantity, _) =>
      moves := [Move(key, Issue, quantity)];
      assert moves[..0] == [];
    case Adjustment(key, target, _) =>
      moves := [Move(key, Adjust, target)];
      assert moves[..0] == [];
    case Fulfilling(id, version, payload, granted, covered) =>
      moves := FulfillmentIsMoves(s, id, version, payload, granted, covered);
  }
}

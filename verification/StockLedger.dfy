/**
 Stock quantities and the append-only movement ledger (backend/app/modules/warehouse). Quantities are integers in
 thousandths, as `quantize_quantity` leaves them. A placement is identified by its shelf and item, which a unique index
 makes one-to-one, and a shelf's warehouse, which no call changes, is part of its id.
 */
module StockLedger {
  import opened Wrappers

  datatype ShelfId = ShelfId(warehouse: nat, number: nat)

  datatype Key = Key(shelf: ShelfId, item: nat)

  datatype Kind = Receive | Issue | Adjust | Fulfillment

  datatype Movement = Movement(key: Key, kind: Kind, delta: int, resulting: int)

  datatype Ledger = Ledger(placements: map<Key, int>, movements: seq<Movement>)

  /** One locked write: amount is the quantity moved, or the target of an adjustment. */
  datatype Move = Move(key: Key, kind: Kind, amount: nat)

  function Quantity(l: Ledger, key: Key): int {
    if key in l.placements then l.placements[key] else 0
  }

  /** The new quantity that a move asks for, or nothing when the service refuses it. */
  function Target(l: Ledger, m: Move): Option<int> {
    match m.kind
    case Receive => Some(Quantity(l, m.key) + m.amount)
    case Adjust => if m.key !in l.placements || m.amount == Quantity(l, m.key) then None else Some(m.amount)
    case _ => if m.key !in l.placements || m.amount > Quantity(l, m.key) then None else Some(Quantity(l, m.key) - m.amount)
  }

  /** The move reads the locked quantity, overwrites it and appends to the ledger. */
  function Apply(l: Ledger, m: Move): Option<Ledger> {
    match Target(l, m)
    case None => None
    case Some(target) =>
      Some(Ledger(l.placements[m.key := target],
                  l.movements + [Movement(m.key, m.kind, target - Quantity(l, m.key), target)]))
  }

  /** A move is refused only for want of stock or of a change; it writes one quantity and one movement. */
  lemma MoveEffect(l: Ledger, m: Move)
    ensures var now := Quantity(l, m.key);
            var next := match m.kind case Receive => now + m.amount case Adjust => m.amount case _ => now - m.amount;
            && (Apply(l, m).Some? <==>
                  (match m.kind
                   case Receive => true
                   case Adjust => m.key in l.placements && m.amount != now
                   case _ => m.key in l.placements && m.amount <= now))
            && (Apply(l, m).Some? ==>
                  Apply(l, m).value.placements == l.placements[m.key := next] &&
                  Apply(l, m).value.movements == l.movements + [Movement(m.key, m.kind, next - now, next)])
  {
  }

  function ApplyAll(l: Ledger, moves: seq<Move>): Option<Ledger> {
    if moves == [] then Some(l)
    else
      match ApplyAll(l, moves[..|moves| - 1])
      case None => None
      case Some(before) => Apply(before, moves[|moves| - 1])
  }

  /** The sum of a placement's deltas. */
  function Balance(movements: seq<Movement>, key: Key): int {
    if movements == [] then 0
    else
      var last := movements[|movements| - 1];
      Balance(movements[..|movements| - 1], key) + if last.key == key then last.delta else 0
  }

  /** Each movement records the sum of its placement's deltas up to itself, and no such sum is negative. */
  predicate PrefixesRecorded(movements: seq<Movement>) {
    forall j :: 0 <= j < |movements| ==> IsPrefixSum(movements, j)
  }

  predicate IsPrefixSum(movements: seq<Movement>, j: int)
    requires 0 <= j < |movements|
  {
    movements[j].resulting == Balance(movements[..j], movements[j].key) + movements[j].delta && movements[j].resulting >= 0
  }

  ghost predicate LedgerOk(l: Ledger) {
    && (forall key: Key :: Balance(l.movements, key) == Quantity(l, key) >= 0)
    && PrefixesRecorded(l.movements)
    && forall m <- l.movements :: m.key in l.placements
  }

  lemma BalanceAppend(movements: seq<Movement>, m: Movement, key: Key)
    ensures Balance(movements + [m], key) == Balance(movements, key) + if m.key == key then m.delta else 0
  {
  }

  /** Appending the movement that belongs to a write keeps quantity and ledger in step. */
  lemma AppendKeepsLedger(l: Ledger, key: Key, kind: Kind, target: int)
    requires LedgerOk(l) && target >= 0
    ensures LedgerOk(Ledger(l.placements[key := target], l.movements + [Movement(key, kind, target - Quantity(l, key), target)]))
  {
    var m := Movement(key, kind, target - Quantity(l, key), target);
    var t := Ledger(l.placements[key := target], l.movements + [m]);
    forall k: Key
      ensures Balance(t.movements, k) == Quantity(t, k) >= 0
    {
      BalanceAppend(l.movements, m, k);
      assert Balance(l.movements, k) == Quantity(l, k);
    }
    forall j | 0 <= j < |t.movements|
      ensures IsPrefixSum(t.movements, j)
    {
      assert t.movements[..j] == l.movements[..j];
      if j < |l.movements| {
        assert IsPrefixSum(l.movements, j);
      } else {
        assert l.movements[..j] == l.movements;
        assert Balance(l.movements, key) == Quantity(l, key);
      }
    }
  }

  lemma ApplyKeepsLedger(l: Ledger, m: Move)
    requires LedgerOk(l) && Apply(l, m).Some?
    ensures LedgerOk(Apply(l, m).value)
  {
    assert Quantity(l, m.key) >= 0 by { assert Balance(l.movements, m.key) == Quantity(l, m.key); }
    AppendKeepsLedger(l, m.key, m.kind, Target(l, m).value);
  }

  lemma {:induction false} ApplyAllKeepsLedger(l: Ledger, moves: seq<Move>)
    requires LedgerOk(l) && ApplyAll(l, moves).Some?
    ensures LedgerOk(ApplyAll(l, moves).value)
  {
    if moves != [] {
      ApplyAllKeepsLedger(l, moves[..|moves| - 1]);
      ApplyKeepsLedger(ApplyAll(l, moves[..|moves| - 1]).value, moves[|moves| - 1]);
    }
  }
}

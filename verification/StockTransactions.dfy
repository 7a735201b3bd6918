/**
 Concurrent stock calls. Each call is a transaction that locks every placement it writes until it commits or rolls
 back; any number of them run interleaved. The result is always that of some serial order: the order of the commits.
 */
module StockTransactions {
  import opened Wrappers
  import opened StockLedger

  /** An open transaction: its moves so far, the quantities it has written and the movements it has flushed. */
  datatype Tx = Tx(moves: seq<Move>, written: map<Key, int>, flushed: seq<Movement>)

  /** The committed ledger and the open transactions; history lists the moves of committed ones in commit order. */
  datatype System = System(ledger: Ledger, open: map<nat, Tx>, history: seq<Move>)

  datatype Step = Begin(id: nat) | Write(id: nat, move: Move) | Commit(id: nat) | Rollback(id: nat)

  predicate IsLockedByOther(s: System, id: nat, key: Key) {
    exists other <- s.open :: other != id && key in s.open[other].written
  }

  /** The tables as a transaction sees them: committed data under its own writes. */
  function View(l: Ledger, tx: Tx): Ledger {
    Ledger(l.placements + tx.written, l.movements + tx.flushed)
  }

  /** A write waits while the placement is locked; a refused move ends its transaction without a trace. */
  function Next(s: System, step: Step): System {
    match step
    case Begin(id) => if id in s.open then s else s.(open := s.open[id := Tx([], map[], [])])
    case Write(id, m) =>
      if id !in s.open || IsLockedByOther(s, id, m.key) then s
      else
        var tx := s.open[id];
        var v := View(s.ledger, tx);
        (match Target(v, m)
         case None => s.(open := s.open - {id})
         case Some(target) =>
           var movement := Movement(m.key, m.kind, target - Quantity(v, m.key), target);
           s.(open := s.open[id := Tx(tx.moves + [m], tx.written[m.key := target], tx.flushed + [movement])]))
    case Commit(id) =>
      if id !in s.open then s
      else System(View(s.ledger, s.open[id]), s.open - {id}, s.history + s.open[id].moves)
    case Rollback(id) => s.(open := s.open - {id})
  }

  function Run(s: System, steps: seq<Step>): System {
    if steps == [] then s else Next(Run(s, steps[..|steps| - 1]), steps[|steps| - 1])
  }

  /** The transaction's view is what its moves give when applied, in order, to the committed ledger alone. */
  predicate TxOk(l: Ledger, tx: Tx) {
    ApplyAll(l, tx.moves) == Some(View(l, tx)) && forall m <- tx.moves :: m.key in tx.written
  }

  ghost predicate Inv(start: Ledger, s: System) {
    && ApplyAll(start, s.history) == Some(s.ledger)
    && (forall id <- s.open :: TxOk(s.ledger, s.open[id]))
    && forall i <- s.open, j <- s.open :: i != j ==> s.open[i].written.Keys !! s.open[j].written.Keys
  }

  lemma {:induction false} ApplyAllConcat(l: Ledger, a: seq<Move>, b: seq<Move>)
    requires ApplyAll(l, a).Some?
    ensures ApplyAll(l, a + b) == ApplyAll(ApplyAll(l, a).value, b)
    decreases |b|
  {
    if b == [] {
      assert a + b == a;
    } else {
      ApplyAllConcat(l, a, b[..|b| - 1]);
      assert (a + b)[..|a + b| - 1] == a + b[..|b| - 1];
    }
  }

  /** Somebody else's commit, on other placements, shows through without changing what the moves do. */
  lemma {:induction false} MovesCommute(l: Ledger, other: Tx, moves: seq<Move>)
    requires ApplyAll(l, moves).Some?
    requires forall m <- moves :: m.key !in other.written
    ensures var r := ApplyAll(l, moves).value;
            |r.movements| >= |l.movements| && r.movements[..|l.movements|] == l.movements &&
            ApplyAll(View(l, other), moves) ==
            Some(Ledger(r.placements + other.written, l.movements + other.flushed + r.movements[|l.movements|..]))
  {
    var base := View(l, other);
    if moves == [] {
      assert base.movements == l.movements + other.flushed + l.movements[|l.movements|..];
    } else {
      var n := |moves| - 1;
      assert forall m <- moves[..n] :: m in moves;
      MovesCommute(l, other, moves[..n]);
      assert moves[n] in moves;
      OneMoveCommutes(ApplyAll(l, moves[..n]).value, l.movements, other, moves[n]);
    }
  }

  lemma OneMoveCommutes(r: Ledger, prefix: seq<Movement>, other: Tx, m: Move)
    requires m.key !in other.written && Apply(r, m).Some?
    requires |r.movements| >= |prefix| && r.movements[..|prefix|] == prefix
    ensures var t := Apply(r, m).value;
            |t.movements| >= |prefix| && t.movements[..|prefix|] == prefix &&
            Apply(Ledger(r.placements + other.written, prefix + other.flushed + r.movements[|prefix|..]), m) ==
            Some(Ledger(t.placements + other.written, prefix + other.flushed + t.movements[|prefix|..]))
  {
    var t := Apply(r, m).value;
    var w := Ledger(r.placements + other.written, prefix + other.flushed + r.movements[|prefix|..]);
    assert Quantity(w, m.key) == Quantity(r, m.key) && Target(w, m) == Target(r, m);
    var last := t.movements[|r.movements|];
    assert t.movements[|prefix|..] == r.movements[|prefix|..] + [last];
    assert w.movements + [last] == prefix + other.flushed + t.movements[|prefix|..];
    assert (r.placements + other.written)[m.key := Target(r, m).value] == t.placements + other.written;
  }

  lemma TxSurvivesCommit(l: Ledger, mine: Tx, other: Tx)
    requires TxOk(l, mine) && mine.written.Keys !! other.written.Keys
    ensures TxOk(View(l, other), mine)
  {
    MovesCommute(l, other, mine.moves);
    var r := View(l, mine);
    assert r.movements[|l.movements|..] == mine.flushed;
    assert r.placements + other.written == l.placements + other.written + mine.written;
  }

  lemma NewTxIsOk(l: Ledger)
    ensures TxOk(l, Tx([], map[], []))
  {
    assert View(l, Tx([], map[], [])) == l;
  }

  lemma BeginKeepsInv(start: Ledger, s: System, id: nat)
    requires Inv(start, s)
    ensures Inv(start, Next(s, Begin(id)))
  {
    hide ApplyAll, View, TxOk;
    NewTxIsOk(s.ledger);
  }

  lemma StepKeepsInv(start: Ledger, s: System, step: Step)
    requires Inv(start, s)
    ensures Inv(start, Next(s, step))
  {
    hide ApplyAll, View, Target;
    match step
    case Begin(id) =>
      BeginKeepsInv(start, s, id);
    case Write(id, m) =>
      WriteKeepsInv(start, s, id, m);
    case Commit(id) =>
      CommitKeepsInv(start, s, id);
    case Rollback(_) =>
  }

  lemma WriteKeepsInv(start: Ledger, s: System, id: nat, m: Move)
    requires Inv(start, s)
    ensures Inv(start, Next(s, Write(id, m)))
  {
    hide ApplyAll, View, Target;
    var t := Next(s, Write(id, m));
    if id in s.open && !IsLockedByOther(s, id, m.key) && id in t.open {
      WriteKeepsTx(s.ledger, s.open[id], m);
      forall i, j | i in t.open && j in t.open && i != j
        ensures t.open[i].written.Keys !! t.open[j].written.Keys
      {
        assert s.open[i].written.Keys !! s.open[j].written.Keys;
      }
    }
  }

  lemma CommitKeepsInv(start: Ledger, s: System, id: nat)
    requires Inv(start, s)
    ensures Inv(start, Next(s, Commit(id)))
  {
    hide ApplyAll, View;
    var t := Next(s, Commit(id));
    if id in s.open {
      ApplyAllConcat(start, s.history, s.open[id].moves);
      assert TxOk(s.ledger, s.open[id]);
      forall i | i in t.open
        ensures TxOk(t.ledger, t.open[i])
      {
        TxSurvivesCommit(s.ledger, s.open[i], s.open[id]);
      }
    }
  }

  lemma WriteKeepsTx(l: Ledger, tx: Tx, m: Move)
    requires TxOk(l, tx) && Target(View(l, tx), m).Some?
    ensures var v := View(l, tx);
            var target := Target(v, m).value;
            TxOk(l, Tx(tx.moves + [m], tx.written[m.key := target],
                       tx.flushed + [Movement(m.key, m.kind, target - Quantity(v, m.key), target)]))
  {
    var v := View(l, tx);
    var target := Target(v, m).value;
    var movement := Movement(m.key, m.kind, target - Quantity(v, m.key), target);
    assert (tx.moves + [m])[..|tx.moves|] == tx.moves;
    assert l.placements + tx.written[m.key := target] == (l.placements + tx.written)[m.key := target];
    assert l.movements + (tx.flushed + [movement]) == l.movements + tx.flushed + [movement];
  }

  function Initial(l: Ledger): System {
    System(l, map[], [])
  }

  /** The move is carried out on what the transaction sees, and recorded in it. */
  ghost predicate IsWritten(l: Ledger, before: Tx, after: Tx, m: Move) {
    after.moves == before.moves + [m] && Apply(View(l, before), m) == Some(View(l, after))
  }

  /** A write waits for a placement that another transaction has written; otherwise it is done, or ends a refused call. */
  lemma WriteEffect(s: System, id: nat, m: Move)
    requires id in s.open
    ensures var t, isLocked := Next(s, Write(id, m)), exists other <- s.open :: other != id && m.key in s.open[other].written;
            && t.ledger == s.ledger && t.history == s.history
            && (isLocked ==> t == s)
            && (!isLocked && Apply(View(s.ledger, s.open[id]), m).None? ==> t.open == s.open - {id})
            && (!isLocked && Apply(View(s.ledger, s.open[id]), m).Some? ==>
                  t.open.Keys == s.open.Keys && (forall other <- s.open :: other != id ==> t.open[other] == s.open[other]) &&
                  IsWritten(s.ledger, s.open[id], t.open[id], m))
  {
    var tx, v := s.open[id], View(s.ledger, s.open[id]);
    if Target(v, m).Some? {
      var target := Target(v, m).value;
      var movement := Movement(m.key, m.kind, target - Quantity(v, m.key), target);
      assert s.ledger.placements + tx.written[m.key := target] == v.placements[m.key := target];
      assert s.ledger.movements + (tx.flushed + [movement]) == v.movements + [movement];
    }
  }

  /** A commit publishes what the transaction sees and its moves; a rollback publishes nothing. */
  lemma EndEffect(s: System, id: nat)
    requires id in s.open
    ensures var t := Next(s, Commit(id));
            t.ledger == View(s.ledger, s.open[id]) && t.history == s.history + s.open[id].moves && t.open == s.open - {id}
    ensures Next(s, Rollback(id)) == s.(open := s.open - {id})
  {
  }

  /** Every interleaving leaves the committed ledger that the committed calls, run one by one in commit order, leave. */
  lemma {:induction false} InterleavingsAreSerial(l: Ledger, steps: seq<Step>)
    ensures Inv(l, Run(Initial(l), steps))
    ensures ApplyAll(l, Run(Initial(l), steps).history) == Some(Run(Initial(l), steps).ledger)
  {
    if steps != [] {
      InterleavingsAreSerial(l, steps[..|steps| - 1]);
      StepKeepsInv(l, Run(Initial(l), steps[..|steps| - 1]), steps[|steps| - 1]);
    }
  }

  /** So under every interleaving quantities equal ledger sums, each recorded result is a prefix sum, none negative. */
  lemma LedgerHoldsUnderConcurrency(l: Ledger, steps: seq<Step>)
    requires LedgerOk(l)
    ensures LedgerOk(Run(Initial(l), steps).ledger)
  {
    InterleavingsAreSerial(l, steps);
    ApplyAllKeepsLedger(l, Run(Initial(l), steps).history);
  }
}

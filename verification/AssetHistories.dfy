/** In every reachable state the history of an asset explains its row. */
module AssetHistories {
  import opened Wrappers
  import opened Assets

  /** The history tells the version, the holder and the retirement of the asset. */
  ghost predicate IsExplained(s: State, i: nat)
    requires i < |s.assets|
  {
    var a := s.assets[i];
    && HolderOk(a.holder) && a.version == Entries(s.history, i) && Replay(s.history, i) == Some(a.holder)
    && (a.retired <==> exists k :: IsRetirement(s.history, k, i))
  }

  ghost predicate SerialsAreUnique(assets: seq<Asset>) {
    forall i, j, serial :: HasSerial(assets, i, serial) && HasSerial(assets, j, serial) ==> i == j
  }

  /** A retirement is recorded once, when the asset has no holder. */
  ghost predicate RetirementsOk(history: seq<Entry>) {
    forall k, id :: IsRetirement(history, k, id) ==>
      Replay(history[..k], id) == Some(NOBODY) && forall j :: IsRetirement(history, j, id) ==> j == k
  }

  ghost predicate Inv(s: State) {
    && (forall i: nat :: i < |s.assets| ==> IsExplained(s, i))
    && (forall e <- s.history :: e.asset < |s.assets|)
    && SerialsAreUnique(s.assets)
    && RetirementsOk(s.history)
  }

  lemma {:induction false} StrangersHaveNoEntries(history: seq<Entry>, id: nat)
    requires forall e <- history :: e.asset != id
    ensures Entries(history, id) == 0 && Replay(history, id) == Some(NOBODY)
    ensures forall k :: !IsRetirement(history, k, id)
  {
    if history != [] {
      var n := |history| - 1;
      StrangersHaveNoEntries(history[..n], id);
      assert history[n] in history;
      assert forall k :: k != n ==> (IsRetirement(history, k, id) <==> IsRetirement(history[..n], k, id));
    }
  }

  /** Appending an entry touches the reading of its own asset only. */
  lemma Appended(history: seq<Entry>, e: Entry, id: nat)
    ensures var longer := history + [e];
            Entries(longer, id) == Entries(history, id) + (if e.asset == id then 1 else 0)
            && Replay(longer, id) == (if e.asset != id || (e.action != Assigned && e.action != Returned) then Replay(history, id)
                                      else if Replay(history, id) == Some(e.from) then Some(e.to) else None)
            && (forall k :: IsRetirement(history, k, id) ==> IsRetirement(longer, k, id))
            && (forall k :: IsRetirement(longer, k, id) ==>
                  IsRetirement(history, k, id) || (k == |history| && e.asset == id && e.action == Retired))
  {
  }

  lemma RetirementsAfter(history: seq<Entry>, e: Entry)
    requires RetirementsOk(history)
    requires e.action == Retired ==> Replay(history, e.asset) == Some(NOBODY) && !exists k :: IsRetirement(history, k, e.asset)
    ensures RetirementsOk(history + [e])
  {
    var longer := history + [e];
    forall k, id | IsRetirement(longer, k, id)
      ensures Replay(longer[..k], id) == Some(NOBODY) && forall j :: IsRetirement(longer, j, id) ==> j == k
    {
      Appended(history, e, id);
      assert longer[..k] == history[..k];
    }
  }

  /** One logged change: the row's own holder and retirement follow from the entry. */
  lemma LogKeepsInv(s: State, id: nat, asset: Asset, action: Action, from: Holder, to: Holder)
    requires Inv(s) && id < |s.assets| && HolderOk(asset.holder)
    requires asset.version == s.assets[id].version
    requires SerialsAreUnique(s.assets[id := asset])
    requires if action == Assigned || action == Returned then from == s.assets[id].holder && to == asset.holder
             else asset.holder == s.assets[id].holder
    requires asset.retired == (s.assets[id].retired || action == Retired)
    requires action == Retired ==> !s.assets[id].retired && s.assets[id].holder == NOBODY
    ensures Inv(Log(s, id, asset, action, from, to))
  {
    hide Entries, Replay;
    var t := Log(s, id, asset, action, from, to);
    var e := Entry(id, action, from, to);
    assert IsExplained(s, id);
    RetirementsAfter(s.history, e);
    forall i: nat | i < |t.assets|
      ensures IsExplained(t, i)
    {
      assert IsExplained(s, i);
      Appended(s.history, e, i);
      if action == Retired && i == id {
        assert IsRetirement(t.history, |s.history|, i);
      }
    }
    assert forall i, serial :: HasSerial(t.assets, i, serial) ==> HasSerial(s.assets[id := asset], i, serial);
  }

  lemma SameSerialsAreUnique(assets: seq<Asset>, id: nat, asset: Asset)
    requires SerialsAreUnique(assets) && id < |assets| && (asset.retired || !assets[id].retired)
    requires asset.serial == assets[id].serial
    ensures SerialsAreUnique(assets[id := asset])
  {
    var changed := assets[id := asset];
    forall i, j, serial | HasSerial(changed, i, serial) && HasSerial(changed, j, serial)
      ensures i == j
    {
      assert HasSerial(assets, i, serial) && HasSerial(assets, j, serial);
    }
  }

  lemma CreateKeepsInv(s: State, serial: string)
    requires Inv(s) && CreateAsset(s, serial).Success?
    ensures Inv(CreateAsset(s, serial).value)
  {
    hide Entries, Replay;
    var t := CreateAsset(s, serial).value;
    var n := |s.assets|;
    var e := Entry(n, Created, NOBODY, NOBODY);
    RetirementsAfter(s.history, e);
    StrangersHaveNoEntries(s.history, n);
    forall i: nat | i < |t.assets|
      ensures IsExplained(t, i)
    {
      Appended(s.history, e, i);
      if i < n {
        assert IsExplained(s, i);
      }
    }
    assert forall i, u :: HasSerial(t.assets, i, u) ==> HasSerial(s.assets, i, u) || (i == n && u == serial);
  }

  lemma NewSerialIsUnique(s: State, id: nat, serial: string)
    requires Inv(s) && id < |s.assets|
    requires WithSerial(s.assets, serial).None? || WithSerial(s.assets, serial).value == id
    ensures SerialsAreUnique(s.assets[id := s.assets[id].(serial := serial)])
  {
    var changed := s.assets[id := s.assets[id].(serial := serial)];
    forall i, j, u | HasSerial(changed, i, u) && HasSerial(changed, j, u)
      ensures i == j
    {
      assert i != id ==> HasSerial(s.assets, i, u);
      assert j != id ==> HasSerial(s.assets, j, u);
    }
  }

  lemma UpdateKeepsInv(s: State, id: nat, version: nat, serial: Option<string>, access: Access)
    requires Inv(s) && UpdateAsset(s, id, version, serial, access).Success?
    ensures Inv(UpdateAsset(s, id, version, serial, access).value)
  {
    hide Entries, Replay, SerialsAreUnique, WithSerial, RetirementsOk;
    var asset := s.assets[id];
    assert IsExplained(s, id);
    if serial.Some? && serial.value != asset.serial {
      NewSerialIsUnique(s, id, serial.value);
      LogKeepsInv(s, id, asset.(serial := serial.value), Updated, NOBODY, NOBODY);
    } else {
      SameSerialsAreUnique(s.assets, id, asset);
      LogKeepsInv(s, id, asset, Updated, NOBODY, NOBODY);
    }
  }

  lemma RetireKeepsInv(s: State, id: nat, version: nat, access: Access)
    requires Inv(s) && RetireAsset(s, id, version, access).Success?
    ensures Inv(RetireAsset(s, id, version, access).value)
  {
    hide Entries, Replay, SerialsAreUnique, RetirementsOk;
    if !s.assets[id].retired {
      var retired := s.assets[id].(retired := true);
      assert IsExplained(s, id);
      SameSerialsAreUnique(s.assets, id, retired);
      LogKeepsInv(s, id, retired, Retired, NOBODY, NOBODY);
    }
  }

  lemma AssignKeepsInv(s: State, id: nat, version: nat, target: Target, access: Access, covered: bool)
    requires Inv(s) && AssignAsset(s, id, version, target, access, covered).Success?
    ensures Inv(AssignAsset(s, id, version, target, access, covered).value)
  {
    hide Entries, Replay, SerialsAreUnique, RetirementsOk;
    var holder := HolderFor(s, target, covered).value;
    var held := s.assets[id].(holder := holder);
    assert IsExplained(s, id);
    SameSerialsAreUnique(s.assets, id, held);
    LogKeepsInv(s, id, held, Assigned, NOBODY, holder);
  }

  lemma ReturnKeepsInv(s: State, id: nat, version: nat, access: Access)
    requires Inv(s) && ReturnAsset(s, id, version, access).Success?
    ensures Inv(ReturnAsset(s, id, version, access).value)
  {
    hide Entries, Replay, SerialsAreUnique, RetirementsOk;
    var free := s.assets[id].(holder := NOBODY);
    assert IsExplained(s, id);
    SameSerialsAreUnique(s.assets, id, free);
    LogKeepsInv(s, id, free, Returned, s.assets[id].holder, NOBODY);
  }

  lemma CallKeepsInv(s: State, call: Call)
    requires Inv(s)
    ensures Inv(Next(s, call))
  {
    if Perform(s, call).Success? {
      hide Entries, Replay, SerialsAreUnique, RetirementsOk, CreateAsset, UpdateAsset, RetireAsset, AssignAsset, ReturnAsset;
      match call
      case Staff(_, _) =>
        assert forall i: nat :: i < |s.assets| ==> IsExplained(s, i) && (IsExplained(s, i) <==> IsExplained(Next(s, call), i));
      case Create(serial) => CreateKeepsInv(s, serial);
      case Update(id, version, serial, access) => UpdateKeepsInv(s, id, version, serial, access);
      case Retire(id, version, access) => RetireKeepsInv(s, id, version, access);
      case Assign(id, version, target, access, covered) => AssignKeepsInv(s, id, version, target, access, covered);
      case Return(id, version, access) => ReturnKeepsInv(s, id, version, access);
    }
  }

  lemma {:induction false} RunKeepsInv(calls: seq<Call>)
    ensures Inv(Run(calls))
  {
    if calls != [] {
      RunKeepsInv(calls[..|calls| - 1]);
      CallKeepsInv(Run(calls[..|calls| - 1]), calls[|calls| - 1]);
    }
  }

  // ------------------------------------------------------------------------------------ what every run promises

  /** The history of an asset gives its version, its holder (each `from` being the holder before) and its retirement. */
  lemma HistoryExplainsAsset(calls: seq<Call>, i: nat)
    requires i < |Run(calls).assets|
    ensures IsExplained(Run(calls), i)
  {
    RunKeepsInv(calls);
  }

  /** Assets that are not retired are told apart by their serial numbers. */
  lemma LiveSerialsAreUnique(calls: seq<Call>, i: nat, j: nat)
    requires i < |Run(calls).assets| && j < |Run(calls).assets|
    requires !Run(calls).assets[i].retired && !Run(calls).assets[j].retired
    requires Run(calls).assets[i].serial == Run(calls).assets[j].serial
    ensures i == j
  {
    var assets := Run(calls).assets;
    RunKeepsInv(calls);
    assert HasSerial(assets, i, assets[i].serial) && HasSerial(assets, j, assets[i].serial);
  }

  /** Between two points of the history without an assignment, an asset without a holder stays without one. */
  lemma {:induction false} UnassignedStaysFree(history: seq<Entry>, id: nat, k: nat)
    requires k <= |history| && Replay(history[..k], id) == Some(NOBODY) && Replay(history, id).Some?
    requires forall j :: IsAssignment(history, j, id) ==> j < k
    requires forall e <- history :: e.action == Returned ==> e.to == NOBODY
    ensures Replay(history, id) == Some(NOBODY)
    decreases |history|
  {
    if k == |history| {
      assert history[..k] == history;
    } else {
      var n := |history| - 1;
      assert history[..n][..k] == history[..k];
      assert !IsAssignment(history, n, id);
      assert forall j :: IsAssignment(history[..n], j, id) ==> IsAssignment(history, j, id);
      assert history[n] in history;
      UnassignedStaysFree(history[..n], id, k);
    }
  }

  lemma {:induction false} ReturnsLeadToNobody(calls: seq<Call>)
    ensures forall e <- Run(calls).history :: e.action == Returned ==> e.to == NOBODY
  {
    if calls != [] {
      ReturnsLeadToNobody(calls[..|calls| - 1]);
    }
  }

  /** A retired asset has a holder only if it was assigned again after its retirement. */
  lemma RetiredIsHeldByLaterAssignment(calls: seq<Call>, i: nat)
    requires i < |Run(calls).assets| && Run(calls).assets[i].retired && Run(calls).assets[i].holder != NOBODY
    ensures exists k, j :: k < j && IsRetirement(Run(calls).history, k, i) && IsAssignment(Run(calls).history, j, i)
  {
    hide Run, Entries, Replay, SerialsAreUnique;
    var s := Run(calls);
    RunKeepsInv(calls);
    ReturnsLeadToNobody(calls);
    assert IsExplained(s, i);
    var k :| IsRetirement(s.history, k, i);
    if forall j :: IsAssignment(s.history, j, i) ==> j < k {
      UnassignedStaysFree(s.history, i, k);
    }
  }

  /** Such an assignment is accepted: whatever the target and the caller, retirement decides nothing. */
  lemma RetiredCanBeAssigned(s: State, id: nat, retired: bool, version: nat, target: Target, access: Access, covered: bool)
    requires id < |s.assets|
    ensures var t := s.(assets := s.assets[id := s.assets[id].(retired := retired)]);
            var r, q := AssignAsset(s, id, version, target, access, covered), AssignAsset(t, id, version, target, access, covered);
            (r.Failure? <==> q.Failure?) && (r.Failure? ==> r.error == q.error) &&
            (r.Success? ==> r.value.assets[id].holder == q.value.assets[id].holder && q.value.assets[id].retired == retired)
  {
  }

  // ------------------------------------------------------------------------------------ retired assets without a holder

  predicate RetiredAreFree(s: State) {
    forall a <- s.assets :: a.retired ==> a.holder.kind.None?
  }

  /** The one kind of call that gives a retired asset a holder. */
  predicate AssignsRetired(s: State, call: Call) {
    call.Assign? && Perform(s, call).Success? && s.assets[call.id].retired
  }

  /** A call leaves retired assets without holders exactly unless it is an accepted assignment of one. */
  lemma FreedomIsKeptExactlyUnless(s: State, call: Call)
    requires RetiredAreFree(s)
    ensures RetiredAreFree(Next(s, call)) <==> !AssignsRetired(s, call)
  {
    var t := Next(s, call);
    if AssignsRetired(s, call) {
      assert t.assets[call.id] in t.assets;
    } else {
      forall i | 0 <= i < |t.assets|
        ensures t.assets[i].retired ==> t.assets[i].holder.kind.None?
      {
        assert i < |s.assets| ==> s.assets[i] in s.assets;
      }
    }
  }

  /** In every state of the run. */
  predicate AlwaysFree(calls: seq<Call>) {
    RetiredAreFree(Run(calls)) && (calls != [] ==> AlwaysFree(calls[..|calls| - 1]))
  }

  /** At every call of the run. */
  predicate NeverAssignsRetired(calls: seq<Call>) {
    calls == [] ||
    (NeverAssignsRetired(calls[..|calls| - 1]) && !AssignsRetired(Run(calls[..|calls| - 1]), calls[|calls| - 1]))
  }

  /** Retired assets have been free all along a run exactly when none of its calls was such an assignment. */
  lemma {:induction false} RetiredStayFreeExactlyUnless(calls: seq<Call>)
    ensures AlwaysFree(calls) <==> NeverAssignsRetired(calls)
  {
    hide RetiredAreFree, AssignsRetired, Next;
    if calls == [] {
      NothingIsRetiredAtFirst();
    } else {
      var n := |calls| - 1;
      RetiredStayFreeExactlyUnless(calls[..n]);
      if RetiredAreFree(Run(calls[..n])) {
        FreedomIsKeptExactlyUnless(Run(calls[..n]), calls[n]);
      }
    }
  }

  lemma NothingIsRetiredAtFirst()
    ensures RetiredAreFree(Run([]))
  {
  }

  /** Such a run exists: an asset is created, retired and assigned. */
  lemma RetiredIsHeldInSomeRun() returns (calls: seq<Call>)
    ensures !RetiredAreFree(Run(calls))
  {
    var all := Access(true, true);
    var create, retire, assign := Create("serial"), Retire(0, 1, all), Assign(0, 2, ToLocation(Some("desk")), all, true);
    calls := [create, retire, assign];
    assert calls[..2] == [create, retire] && calls[..2][..1] == [create] && [create][..0] == [];
    assert Run([create]).assets == [Asset("serial", NOBODY, false, 1)];
    assert Run(calls[..2]).assets == [Asset("serial", NOBODY, true, 2)];
    assert Run(calls).assets[0] in Run(calls).assets;
  }

  /** Whichever call gives an asset to an employee, the asset was free and the employee is active at that moment. */
  lemma OnlyActiveEmployeesReceive(s: State, call: Call, i: nat, employee: nat)
    requires i < |Next(s, call).assets| && Next(s, call).assets[i].holder.employee == Some(employee)
    requires i < |s.assets| ==> s.assets[i].holder.employee != Some(employee)
    ensures i < |s.assets| && s.assets[i].holder.kind.None?
    ensures employee in s.employees && s.employees[employee]
  {
  }

  // ------------------------------------------------------------------------------------ one winner per version

  /** The asset and version that a guarded call names. */
  predicate Names(call: Call, id: nat, version: nat) {
    (call.Update? || call.Retire? || call.Assign? || call.Return?) && call.id == id && call.version == version
  }

  predicate HasMovedOn(s: State, id: nat, version: nat) {
    id < |s.assets| && s.assets[id].version > version
  }

  lemma CallMovesOn(s: State, call: Call, id: nat, version: nat)
    ensures HasMovedOn(s, id, version) ==> HasMovedOn(Next(s, call), id, version)
    ensures Names(call, id, version) && Next(s, call) != s ==> HasMovedOn(Next(s, call), id, version)
    ensures Names(call, id, version) && HasMovedOn(s, id, version) ==> Next(s, call) == s
  {
  }

  lemma {:induction false} MovedOnForGood(calls: seq<Call>, more: seq<Call>, id: nat, version: nat)
    requires HasMovedOn(Run(calls), id, version)
    ensures HasMovedOn(Run(calls + more), id, version)
    decreases |more|
  {
    if more == [] {
      assert calls + more == calls;
    } else {
      var n := |more| - 1;
      MovedOnForGood(calls, more[..n], id, version);
      assert (calls + more)[..|calls + more| - 1] == calls + more[..n];
      CallMovesOn(Run(calls + more[..n]), more[n], id, version);
    }
  }

  /** Of all the calls that name one version of an asset, at most one ever changes anything. */
  lemma OneWinnerPerVersion(calls: seq<Call>, first: Call, more: seq<Call>, second: Call, id: nat, version: nat)
    requires Names(first, id, version) && Names(second, id, version) && Next(Run(calls), first) != Run(calls)
    ensures Next(Run(calls + [first] + more), second) == Run(calls + [first] + more)
  {
    assert (calls + [first])[..|calls|] == calls;
    CallMovesOn(Run(calls), first, id, version);
    MovedOnForGood(calls + [first], more, id, version);
    CallMovesOn(Run(calls + [first] + more), second, id, version);
  }
}

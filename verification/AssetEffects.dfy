/**
 What each asset call does to its row and to the history, and exactly when it is accepted, in terms of the call's own
 arguments and the rows before it (backend/app/modules/warehouse/asset_service.py).
 */
module AssetEffects {
  import opened Wrappers
  import opened Assets
  import opened AssetHistories

  /** The caller reaches the asset: it exists, and is covered globally or by its unit. */
  predicate IsReached(s: State, id: nat, access: Access) {
    id < |s.assets| && (access.globally || access.unit)
  }

  predicate IsTaken(s: State, serial: string) {
    exists a <- s.assets :: !a.retired && a.serial == serial
  }

  /** The row becomes `asset`, one entry is appended, and nothing else changes. */
  predicate IsLogged(s: State, t: State, id: nat, asset: Asset, entry: Entry) {
    id < |s.assets| && t == s.(assets := s.assets[id := asset], history := s.history + [entry])
  }

  lemma TakenIs(s: State, serial: string)
    ensures WithSerial(s.assets, serial).Some? <==> IsTaken(s, serial)
  {
    hide WithSerial;
    var found := WithSerial(s.assets, serial);
    if found.Some? {
      assert s.assets[found.value] in s.assets;
    }
    if IsTaken(s, serial) {
      var a :| a in s.assets && !a.retired && a.serial == serial;
      var i :| 0 <= i < |s.assets| && s.assets[i] == a;
      assert HasSerial(s.assets, i, serial);
    }
  }

  /** A new asset is free, not retired and of version 1, and its serial is not that of an unretired asset. */
  lemma CreationEffect(s: State, serial: string)
    ensures var r := CreateAsset(s, serial);
            && (r.Success? <==> !IsTaken(s, serial))
            && (r.Success? ==>
                  r.value == s.(assets := s.assets + [Asset(serial, Holder(None, None, None), false, 1)],
                                history := s.history + [Entry(|s.assets|, Created, Holder(None, None, None), Holder(None, None, None))]))
  {
    hide WithSerial;
    TakenIs(s, serial);
  }

  /** Another unretired asset has the serial. */
  predicate IsTakenByOther(s: State, id: nat, serial: string) {
    exists i :: 0 <= i < |s.assets| && i != id && HasSerial(s.assets, i, serial)
  }

  /** An update sets the serial when it is given and differs, unless another unretired asset has it. */
  lemma UpdateEffect(s: State, id: nat, version: nat, serial: Option<string>, access: Access)
    requires SerialsAreUnique(s.assets)
    ensures var r := UpdateAsset(s, id, version, serial, access);
            && (r.Success? <==>
                  (IsReached(s, id, access) && s.assets[id].version == version &&
                   (serial.None? || serial.value == s.assets[id].serial || !IsTakenByOther(s, id, serial.value))))
            && (r.Success? ==>
                  var serialNow := match serial case Some(value) => value case None => s.assets[id].serial;
                  IsLogged(s, r.value, id, Asset(serialNow, s.assets[id].holder, s.assets[id].retired, version + 1),
                           Entry(id, Updated, NOBODY, NOBODY)))
  {
    hide WithSerial;
    if serial.Some? && id < |s.assets| {
      var found := WithSerial(s.assets, serial.value);
      if found.Some? && found.value != id {
        assert IsTakenByOther(s, id, serial.value);
      }
      if IsTakenByOther(s, id, serial.value) {
        var i :| 0 <= i < |s.assets| && i != id && HasSerial(s.assets, i, serial.value);
        assert found.Some? && HasSerial(s.assets, found.value, serial.value);
      }
    }
  }

  /** A retirement needs the asset to be free and of its version; a second one changes nothing. */
  lemma RetirementEffect(s: State, id: nat, version: nat, access: Access)
    ensures var r := RetireAsset(s, id, version, access);
            && (r.Success? <==>
                  (IsReached(s, id, access) &&
                   (s.assets[id].retired || (s.assets[id].holder.kind.None? && s.assets[id].version == version))))
            && (r.Success? && s.assets[id].retired ==> r.value == s)
            && (r.Success? && !s.assets[id].retired ==>
                  IsLogged(s, r.value, id, Asset(s.assets[id].serial, s.assets[id].holder, true, version + 1),
                           Entry(id, Retired, NOBODY, NOBODY)))
  {
  }

  /** The target is an active employee in the caller's scope, or a place with a name. */
  predicate IsAssignable(s: State, target: Target, covered: bool) {
    match target
    case ToEmployee(employee) => employee.Some? && employee.value in s.employees && s.employees[employee.value] && covered
    case ToLocation(location) => location.Some? && location.value != ""
  }

  function HolderOf(target: Target): Holder {
    match target
    case ToEmployee(employee) => Holder(Some(EmployeeHolder), employee, None)
    case ToLocation(location) => Holder(Some(LocationHolder), None, location)
  }

  /** An assignment gives a free asset of its version to the target, and records it as the entry's `to`. */
  lemma AssignmentEffect(s: State, id: nat, version: nat, target: Target, access: Access, covered: bool)
    ensures var r := AssignAsset(s, id, version, target, access, covered);
            && (r.Success? <==>
                  (IsReached(s, id, access) && s.assets[id].version == version && s.assets[id].holder.kind.None? &&
                   IsAssignable(s, target, covered)))
            && (r.Success? ==>
                  IsLogged(s, r.value, id, Asset(s.assets[id].serial, HolderOf(target), s.assets[id].retired, version + 1),
                           Entry(id, Assigned, NOBODY, HolderOf(target))))
  {
  }

  /** A return frees an assigned asset of its version, and records the holder as the entry's `from`. */
  lemma ReturnEffect(s: State, id: nat, version: nat, access: Access)
    ensures var r := ReturnAsset(s, id, version, access);
            && (r.Success? <==> IsReached(s, id, access) && s.assets[id].version == version && s.assets[id].holder.kind.Some?)
            && (r.Success? ==>
                  IsLogged(s, r.value, id, Asset(s.assets[id].serial, Holder(None, None, None), s.assets[id].retired, version + 1),
                           Entry(id, Returned, s.assets[id].holder, Holder(None, None, None))))
  {
  }
}

/**
 The asset services as the repository runs them: the row overwritten and flushed, the entry appended, then a commit.
 Each is proved to have the effect that Assets gives its call.
 */
module AssetService {
  import opened Wrappers
  import opened Assets
  import AssetHistories

  class Session {
    var employees: map<nat, bool>
    var assets: seq<Asset>
    var history: seq<Entry>
    var committed: State

    function View(): State
      reads this
    {
      State(employees, assets, history)
    }

    /** Nothing is uncommitted, and what is committed satisfies the invariant of every run. */
    ghost predicate Valid()
      reads this
    {
      View() == committed && AssetHistories.Inv(committed)
    }

    constructor ()
      ensures Valid() && committed == Run([])
    {
      employees, assets, history := map[], [], [];
      committed := State(map[], [], []);
    }

    method Commit()
      modifies this`committed
      ensures committed == View()
    {
      committed := View();
    }

    /** `write_history`. */
    method WriteHistory(id: nat, action: Action, from: Holder, to: Holder)
      modifies this`history
      ensures history == old(history) + [Entry(id, action, from, to)]
    {
      history := history + [Entry(id, action, from, to)];
    }

    /** Flushes the row with its next version, and the entry. */
    method Save(id: nat, asset: Asset, action: Action, from: Holder, to: Holder)
      requires id < |assets|
      modifies this`assets, this`history
      ensures assets == old(assets)[id := asset.(version := asset.version + 1)]
      ensures history == old(history) + [Entry(id, action, from, to)]
    {
      assets := assets[id := asset.(version := asset.version + 1)];
      WriteHistory(id, action, from, to);
    }

    method CreateAsset(serial: string) returns (error: Option<Error>)
      requires Valid()
      modifies this
      ensures Valid()
      ensures HasOutcome(old(committed), Assets.CreateAsset(old(committed), serial), committed, error)
    {
      hide AssetHistories.Inv;
      AssetHistories.CallKeepsInv(committed, Create(serial));
      if WithSerial(assets, serial).Some? {
        return Some(Duplicate);
      }
      assets := assets + [Asset(serial, NOBODY, false, 1)];
      WriteHistory(|assets| - 1, Created, NOBODY, NOBODY);
      Commit();
      error := None;
    }

    method UpdateAsset(id: nat, version: nat, serial: Option<string>, access: Access) returns (error: Option<Error>)
      requires Valid()
      modifies this
      ensures Valid()
      ensures HasOutcome(old(committed), Assets.UpdateAsset(old(committed), id, version, serial, access), committed, error)
    {
      hide AssetHistories.Inv;
      AssetHistories.CallKeepsInv(committed, Update(id, version, serial, access));
      error := LoadError(View(), id, access);
      if error.Some? {
        return;
      }
      if assets[id].version != version {
        return Some(StaleVersion);
      }
      var asset := assets[id];
      if serial.Some? && serial.value != asset.serial {
        var conflicting := WithSerial(assets, serial.value);
        if conflicting.Some? && conflicting.value != id {
          return Some(Duplicate);
        }
        asset := asset.(serial := serial.value);
      }
      Save(id, asset, Updated, NOBODY, NOBODY);
      Commit();
    }

    method RetireAsset(id: nat, version: nat, access: Access) returns (error: Option<Error>)
      requires Valid()
      modifies this
      ensures Valid()
      ensures HasOutcome(old(committed), Assets.RetireAsset(old(committed), id, version, access), committed, error)
    {
      hide AssetHistories.Inv;
      AssetHistories.CallKeepsInv(committed, Retire(id, version, access));
      error := LoadError(View(), id, access);
      if error.Some? {
        return;
      }
      if !assets[id].retired {
        if assets[id].holder.kind.Some? {
          return Some(RuleViolation);
        }
        if assets[id].version != version {
          return Some(StaleVersion);
        }
        Save(id, assets[id].(retired := true), Retired, NOBODY, NOBODY);
      }
      Commit();
    }

    method AssignAsset(id: nat, version: nat, target: Target, access: Access, covered: bool) returns (error: Option<Error>)
      requires Valid()
      modifies this
      ensures Valid()
      ensures HasOutcome(old(committed), Assets.AssignAsset(old(committed), id, version, target, access, covered), committed, error)
    {
      hide AssetHistories.Inv;
      AssetHistories.CallKeepsInv(committed, Assign(id, version, target, access, covered));
      error := LoadError(View(), id, access);
      if error.Some? {
        return;
      }
      if assets[id].version != version {
        return Some(StaleVersion);
      }
      if assets[id].holder.kind.Some? {
        return Some(RuleViolation);
      }
      var holder := NOBODY;
      match target {
        case ToEmployee(employee) =>
          if employee.None? || employee.value !in employees || !employees[employee.value] {
            return Some(Invalid);
          }
          if !covered {
            return Some(Denied);
          }
          holder := Holder(Some(EmployeeHolder), employee, None);
        case ToLocation(location) =>
          if location.None? || location.value == "" {
            return Some(Invalid);
          }
          holder := Holder(Some(LocationHolder), None, location);
      }
      Save(id, assets[id].(holder := holder), Assigned, NOBODY, holder);
      Commit();
    }

    method ReturnAsset(id: nat, version: nat, access: Access) returns (error: Option<Error>)
      requires Valid()
      modifies this
      ensures Valid()
      ensures HasOutcome(old(committed), Assets.ReturnAsset(old(committed), id, version, access), committed, error)
    {
      hide AssetHistories.Inv;
      AssetHistories.CallKeepsInv(committed, Return(id, version, access));
      error := LoadError(View(), id, access);
      if error.Some? {
        return;
      }
      if assets[id].version != version {
        return Some(StaleVersion);
      }
      if assets[id].holder.kind.None? {
        return Some(RuleViolation);
      }
      var from := assets[id].holder;
      Save(id, assets[id].(holder := NOBODY), Returned, from, NOBODY);
      Commit();
    }
  }
}

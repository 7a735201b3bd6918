/** The authorisation rule of backend/app/common/scope.py, as a predicate and as sets of units. */
module Scope {
  import opened Wrappers

  datatype Level = Global | Complex | Workplace | Unknown(name: string)

  datatype Assignment = Assignment(
    level: Level, moduleName: string, resource: string, operation: string,
    complexId: Option<string>, workplaceId: Option<string>)

  datatype Context = Context(userId: string, isActive: bool, permissionCodes: set<string>, scopes: seq<Assignment>)

  datatype Target = Target(complexId: Option<string>, workplaceId: Option<string>)

  datatype Units = Units(globalAccess: bool, complexIds: set<string>, workplaceIds: set<string>)

  /** `ScopeAssignmentData.target`. */
  function Join(moduleName: string, resource: string, operation: string): string {
    moduleName + ":" + resource + ":" + operation
  }

  predicate Grants(a: Assignment, operation: string) {
    Join(a.moduleName, a.resource, a.operation) == operation
  }

  predicate Covers(a: Assignment, target: Target) {
    match a.level
    case Global => true
    case Complex => target.complexId.Some? && a.complexId == target.complexId
    case Workplace => target.workplaceId.Some? && a.workplaceId == target.workplaceId
    case Unknown(_) => false
  }

  predicate Can(context: Context, operation: string, target: Target) {
    context.isActive && operation in context.permissionCodes &&
    exists i :: 0 <= i < |context.scopes| && Grants(context.scopes[i], operation) && Covers(context.scopes[i], target)
  }

  /** The gates and the assignments that `allowed_units` looks at for an operation. */
  predicate Admits(context: Context, operation: string, a: Assignment) {
    context.isActive && operation in context.permissionCodes && Grants(a, operation)
  }

  /** A unit id is usable when it is neither missing nor empty. */
  predicate HasId(id: Option<string>) {
    id.Some? && id.value != ""
  }

  ghost predicate AreAllowed(u: Units, context: Context, operation: string, scopes: seq<Assignment>) {
    && (u.globalAccess <==> exists a <- scopes :: Admits(context, operation, a) && a.level == Global)
    && (forall id :: id in u.complexIds <==>
          exists a <- scopes :: Admits(context, operation, a) && a.level == Complex && HasId(a.complexId) && a.complexId.value == id)
    && (forall id :: id in u.workplaceIds <==>
          exists a <- scopes :: Admits(context, operation, a) && a.level == Workplace && HasId(a.workplaceId) && a.workplaceId.value == id)
  }

  /** `allowed_units`: the loop over the assignments. */
  method AllowedUnits(context: Context, operation: string) returns (u: Units)
    ensures AreAllowed(u, context, operation, context.scopes)
  {
    if !context.isActive || operation !in context.permissionCodes {
      return Units(false, {}, {});
    }
    var globalAccess, complexIds, workplaceIds := false, {}, {};
    for i := 0 to |context.scopes|
      invariant AreAllowed(Units(globalAccess, complexIds, workplaceIds), context, operation, context.scopes[..i])
    {
      var a := context.scopes[i];
      assert context.scopes[..i + 1] == context.scopes[..i] + [a];
      if !Grants(a, operation) {
        continue;
      }
      if a.level == Global {
        globalAccess := true;
      } else if a.level == Complex && HasId(a.complexId) {
        complexIds := complexIds + {a.complexId.value};
      } else if a.level == Workplace && HasId(a.workplaceId) {
        workplaceIds := workplaceIds + {a.workplaceId.value};
      }
    }
    assert context.scopes[..|context.scopes|] == context.scopes;
    u := Units(globalAccess, complexIds, workplaceIds);
  }

  /** How callers read a set of units, as the list filters and the asset loader do. */
  predicate UnitsCover(u: Units, target: Target) {
    u.globalAccess ||
    (target.complexId.Some? && target.complexId.value in u.complexIds) ||
    (target.workplaceId.Some? && target.workplaceId.value in u.workplaceIds)
  }

  predicate NamesUnits(target: Target) {
    target.complexId != Some("") && target.workplaceId != Some("")
  }

  /** The predicate and the unit sets give one answer for every target whose ids are not empty strings. */
  lemma CanIsCoveredByUnits(context: Context, operation: string, target: Target, u: Units)
    requires AreAllowed(u, context, operation, context.scopes) && NamesUnits(target)
    ensures Can(context, operation, target) <==> UnitsCover(u, target)
  {
    if Can(context, operation, target) {
      var i :| 0 <= i < |context.scopes| && Grants(context.scopes[i], operation) && Covers(context.scopes[i], target);
      var a := context.scopes[i];
      assert Admits(context, operation, a);
      assert a.level == Global || (a.level == Complex && HasId(a.complexId)) || (a.level == Workplace && HasId(a.workplaceId));
    }
    if UnitsCover(u, target) {
      var a :| a in context.scopes && Admits(context, operation, a) && Covers(a, target);
    }
  }

  ghost predicate Agree(target: Target) {
    forall context: Context, operation: string, u: Units ::
      AreAllowed(u, context, operation, context.scopes) ==> (Can(context, operation, target) <==> UnitsCover(u, target))
  }

  /** Exactly the targets with an empty id are read differently: `_covers` compares it, `allowed_units` drops it. */
  lemma AgreementNeedsNames(target: Target)
    ensures Agree(target) <==> NamesUnits(target)
  {
    if NamesUnits(target) {
      forall context: Context, operation: string, u: Units | AreAllowed(u, context, operation, context.scopes)
        ensures Can(context, operation, target) <==> UnitsCover(u, target)
      {
        CanIsCoveredByUnits(context, operation, target, u);
      }
    } else {
      var level := if target.complexId == Some("") then Complex else Workplace;
      var a := Assignment(level, "m", "r", "o", Some(""), Some(""));
      var context := Context("user", true, {Join("m", "r", "o")}, [a]);
      var u := Units(false, {}, {});
      assert AreAllowed(u, context, Join("m", "r", "o"), context.scopes);
      assert Grants(context.scopes[0], Join("m", "r", "o")) && Covers(context.scopes[0], target);
      assert Can(context, Join("m", "r", "o"), target) && !UnitsCover(u, target);
    }
  }

  // ------------------------------------------------------------------------ the colon-joined code

  /** The position of the first colon, or the length. */
  function FirstColon(s: string): (i: nat)
    ensures i <= |s|
    ensures i < |s| ==> s[i] == ':'
    ensures forall k :: 0 <= k < i ==> s[k] != ':'
  {
    if s == "" || s[0] == ':' then 0 else 1 + FirstColon(s[1..])
  }

  /** Unpacking `code.split(":", 2)` into three names; a code with fewer than two colons is a ValueError. */
  function Split(code: string): Option<(string, string, string)> {
    var i := FirstColon(code);
    if i == |code| then None
    else
      var rest := code[i + 1..];
      var j := FirstColon(rest);
      if j == |rest| then None else Some((code[..i], rest[..j], rest[j + 1..]))
  }

  lemma FirstColonIs(s: string, head: string, tail: string)
    requires s == head + ":" + tail && ':' !in head
    ensures FirstColon(s) == |head|
  {
    assert s[|head|] == ':';
    assert forall k :: 0 <= k < |head| ==> s[k] == head[k];
  }

  /** Splitting undoes the join when module and resource hold no colon. */
  lemma SplitUndoesJoin(m: string, r: string, o: string)
    requires ':' !in m && ':' !in r
    ensures Split(Join(m, r, o)) == Some((m, r, o))
  {
    var code := Join(m, r, o);
    JoinFromRight(m, r, o);
    FirstColonIs(code, m, r + ":" + o);
    var rest := r + ":" + o;
    assert code[|m| + 1..] == rest && code[..|m|] == m;
    FirstColonIs(rest, r, o);
    assert rest[..|r|] == r && rest[|r| + 1..] == o;
  }

  /** Joining undoes the split, and the first two parts hold no colon. */
  lemma JoinUndoesSplit(code: string)
    requires Split(code).Some?
    ensures var p := Split(code).value; Join(p.0, p.1, p.2) == code && ':' !in p.0 && ':' !in p.1
  {
    var i := FirstColon(code);
    var rest := code[i + 1..];
    var j := FirstColon(rest);
    SplitAtColon(code, i);
    SplitAtColon(rest, j);
    JoinFromRight(code[..i], rest[..j], rest[j + 1..]);
  }

  lemma JoinFromRight(m: string, r: string, o: string)
    ensures Join(m, r, o) == m + ":" + (r + ":" + o)
  {
  }

  lemma SplitAtColon(s: string, i: nat)
    requires i < |s| && s[i] == ':'
    ensures s == s[..i] + ":" + s[i + 1..]
  {
  }

  lemma JoinCanBeSplit(m: string, r: string, o: string)
    ensures Split(Join(m, r, o)).Some?
  {
    var code := Join(m, r, o);
    var i := FirstColon(code);
    assert code[|m|] == ':' && code[|m| + 1 + |r|] == ':';
    var rest := code[i + 1..];
    assert rest[|m| + 1 + |r| - (i + 1)] == ':';
  }

  /** Comparing joined codes and comparing split parts agree on every code exactly for colon-free names. */
  lemma ComparisonsAgree(m: string, r: string, o: string)
    ensures (forall code: string :: Split(code).Some? ==> (Join(m, r, o) == code <==> Split(code).value == (m, r, o)))
            <==> ':' !in m && ':' !in r
  {
    if ':' !in m && ':' !in r {
      SplitUndoesJoin(m, r, o);
      forall code: string | Split(code).Some?
        ensures Join(m, r, o) == code <==> Split(code).value == (m, r, o)
      {
        JoinUndoesSplit(code);
      }
    } else {
      JoinCanBeSplit(m, r, o);
      JoinUndoesSplit(Join(m, r, o));
    }
  }
}

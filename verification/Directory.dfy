/**
 The accounts, roles and scope assignments that the user module's queries read (backend/app/modules/user), and the
 reverse form of the authorisation rule: which users an operation on a workplace concerns.
 */
module Directory {
  import opened Wrappers
  import opened Scope

  /** A stored identifier; its text form is never empty. */
  type Uuid = s: string | s != "" witness "0"

  datatype User = User(active: bool, deleted: bool)

  datatype ScopeRow = ScopeRow(
    user: Uuid, level: Level, moduleName: string, resource: string, operation: string,
    complexId: Option<Uuid>, workplaceId: Option<Uuid>)

  /** workplaces maps each workplace to its complex. */
  datatype Tables = Tables(
    users: map<Uuid, User>, userRoles: set<(Uuid, Uuid)>, rolePermissions: set<(Uuid, string)>,
    scopeRows: seq<ScopeRow>, workplaces: map<Uuid, Uuid>)

  datatype Error = BadPermissionCode

  predicate IsActive(db: Tables, user: Uuid) {
    user in db.users && db.users[user].active && !db.users[user].deleted
  }

  predicate HoldsPermission(db: Tables, user: Uuid, code: string) {
    exists p <- db.userRoles :: p.0 == user && (p.1, code) in db.rolePermissions
  }

  /** The condition on a scope row for a workplace, or for an event without one. */
  predicate RowReaches(db: Tables, row: ScopeRow, workplace: Option<Uuid>)
    requires workplace.Some? ==> workplace.value in db.workplaces
  {
    row.level == Global ||
    (workplace.Some? && row.level == Complex && row.complexId == Some(db.workplaces[workplace.value])) ||
    (workplace.Some? && row.level == Workplace && row.workplaceId == workplace)
  }

  /** `get_recipient_user_ids`: one query over users, roles, permissions and scope rows. */
  function RecipientIds(db: Tables, code: string, workplace: Option<Uuid>): Result<set<Uuid>, Error> {
    var parts := Split(code);
    if parts.None? then Failure(BadPermissionCode)
    else if workplace.Some? && workplace.value !in db.workplaces then Success({})
    else
      Success(set user | user in db.users && IsActive(db, user) && HoldsPermission(db, user, code) &&
                         exists row <- db.scopeRows ::
                           row.user == user && (row.moduleName, row.resource, row.operation) == parts.value &&
                           RowReaches(db, row, workplace))
  }

  /** `filter_active_user_ids`. */
  function FilterActive(db: Tables, ids: seq<Uuid>): set<Uuid> {
    set user | user in ids && IsActive(db, user)
  }

  function ToAssignment(row: ScopeRow): Assignment {
    Assignment(row.level, row.moduleName, row.resource, row.operation, row.complexId, row.workplaceId)
  }

  function AssignmentsOf(rows: seq<ScopeRow>, user: Uuid): seq<Assignment> {
    if rows == [] then []
    else (if rows[0].user == user then [ToAssignment(rows[0])] else []) + AssignmentsOf(rows[1..], user)
  }

  /** `load_scope_context`. */
  function LoadContext(db: Tables, user: Uuid): Option<Context> {
    if !IsActive(db, user) then None
    else
      var codes := set p, q | p in db.userRoles && p.0 == user && q in db.rolePermissions && q.0 == p.1 :: q.1;
      Some(Context(user, true, codes, AssignmentsOf(db.scopeRows, user)))
  }

  function TargetOf(db: Tables, workplace: Option<Uuid>): Target
    requires workplace.Some? ==> workplace.value in db.workplaces
  {
    if workplace.None? then Target(None, None) else Target(Some(db.workplaces[workplace.value]), Some(workplace.value))
  }

  predicate IsColonFree(a: Assignment) {
    ':' !in a.moduleName && ':' !in a.resource
  }

  predicate ColonFree(db: Tables) {
    forall row <- db.scopeRows :: IsColonFree(ToAssignment(row))
  }

  /** `can`, by an assignment that the query can see: splitting the code misses names that hold a colon. */
  predicate CanVisibly(context: Context, operation: string, target: Target) {
    context.isActive && operation in context.permissionCodes &&
    exists i :: 0 <= i < |context.scopes| && Grants(context.scopes[i], operation) && Covers(context.scopes[i], target) &&
                IsColonFree(context.scopes[i])
  }

  lemma {:induction false} AssignmentsAreRows(rows: seq<ScopeRow>, user: Uuid, a: Assignment)
    ensures a in AssignmentsOf(rows, user) <==> exists row <- rows :: row.user == user && ToAssignment(row) == a
  {
    if rows != [] {
      AssignmentsAreRows(rows[1..], user, a);
      assert rows == [rows[0]] + rows[1..];
    }
  }

  lemma RowMatchesAsAssignment(db: Tables, row: ScopeRow, code: string, workplace: Option<Uuid>)
    requires workplace.Some? ==> workplace.value in db.workplaces
    requires Split(code).Some?
    ensures (row.moduleName, row.resource, row.operation) == Split(code).value && RowReaches(db, row, workplace) <==>
            Grants(ToAssignment(row), code) && Covers(ToAssignment(row), TargetOf(db, workplace)) && IsColonFree(ToAssignment(row))
  {
    JoinUndoesSplit(code);
    if IsColonFree(ToAssignment(row)) {
      ComparisonsAgree(row.moduleName, row.resource, row.operation);
    }
  }

  /** The query returns exactly the users whose own loaded context passes `can` by an assignment that it can see. */
  lemma RecipientsCanVisibly(db: Tables, code: string, workplace: Option<Uuid>, user: Uuid)
    requires workplace.Some? ==> workplace.value in db.workplaces
    requires Split(code).Some?
    ensures RecipientIds(db, code, workplace).Success?
    ensures user in RecipientIds(db, code, workplace).value <==>
            LoadContext(db, user).Some? && CanVisibly(LoadContext(db, user).value, code, TargetOf(db, workplace))
  {
    hide Split, Join;
    var target := TargetOf(db, workplace);
    if LoadContext(db, user).Some? {
      var context := LoadContext(db, user).value;
      PermissionsAgree(db, user, code);
      if user in RecipientIds(db, code, workplace).value {
        var row :| row in db.scopeRows && row.user == user &&
                   (row.moduleName, row.resource, row.operation) == Split(code).value && RowReaches(db, row, workplace);
        RowMatchesAsAssignment(db, row, code, workplace);
        AssignmentsAreRows(db.scopeRows, user, ToAssignment(row));
        var i :| 0 <= i < |context.scopes| && context.scopes[i] == ToAssignment(row);
        assert Grants(context.scopes[i], code) && Covers(context.scopes[i], target);
      }
      if CanVisibly(context, code, target) {
        var i :| 0 <= i < |context.scopes| && Grants(context.scopes[i], code) && Covers(context.scopes[i], target) &&
                 IsColonFree(context.scopes[i]);
        AssignmentsAreRows(db.scopeRows, user, context.scopes[i]);
        var row :| row in db.scopeRows && row.user == user && ToAssignment(row) == context.scopes[i];
        RowMatchesAsAssignment(db, row, code, workplace);
      }
    }
  }

  /** So they all pass `can`; and where no stored name holds a colon, they are exactly the users who do. */
  lemma RecipientsAreThoseWhoCan(db: Tables, code: string, workplace: Option<Uuid>, user: Uuid)
    requires workplace.Some? ==> workplace.value in db.workplaces
    requires Split(code).Some?
    ensures RecipientIds(db, code, workplace).Success?
    ensures user in RecipientIds(db, code, workplace).value ==>
            LoadContext(db, user).Some? && Can(LoadContext(db, user).value, code, TargetOf(db, workplace))
    ensures ColonFree(db) && LoadContext(db, user).Some? && Can(LoadContext(db, user).value, code, TargetOf(db, workplace)) ==>
            user in RecipientIds(db, code, workplace).value
  {
    hide RecipientIds, Covers, Grants;
    RecipientsCanVisibly(db, code, workplace, user);
    var target := TargetOf(db, workplace);
    if LoadContext(db, user).Some? && ColonFree(db) && Can(LoadContext(db, user).value, code, target) {
      var scopes := LoadContext(db, user).value.scopes;
      var i :| 0 <= i < |scopes| && Grants(scopes[i], code) && Covers(scopes[i], target);
      AssignmentsAreRows(db.scopeRows, user, scopes[i]);
    }
  }

  lemma PermissionsAgree(db: Tables, user: Uuid, code: string)
    requires LoadContext(db, user).Some?
    ensures HoldsPermission(db, user, code) <==> code in LoadContext(db, user).value.permissionCodes
  {
  }

  /** A context is loaded for an account in use; it holds the codes of the account's roles and its own scope rows. */
  lemma ContextIsLoaded(db: Tables, user: Uuid, code: string, a: Assignment)
    ensures LoadContext(db, user).Some? <==> user in db.users && db.users[user].active && !db.users[user].deleted
    ensures LoadContext(db, user).Some? ==>
            var context := LoadContext(db, user).value;
            && context.userId == user && context.isActive
            && (code in context.permissionCodes <==> exists p <- db.userRoles :: p.0 == user && (p.1, code) in db.rolePermissions)
            && (a in context.scopes <==>
                  exists row <- db.scopeRows ::
                    row.user == user && a == Assignment(row.level, row.moduleName, row.resource, row.operation, row.complexId, row.workplaceId))
  {
    if LoadContext(db, user).Some? {
      PermissionsAgree(db, user, code);
      AssignmentsAreRows(db.scopeRows, user, a);
    }
  }
}

/**
 Refresh-token families (backend/app/modules/user/auth_service.py) and the account changes that revoke them
 (employee_service.py). A token is identified by its position in the table, which stands for its unique hash; a new
 family gets a fresh number. Each call is one transaction.
 */
module TokenFamilies {
  import opened Wrappers

  datatype TokenStatus = Active | Rotated | Revoked

  datatype Token = Token(user: nat, family: nat, status: TokenStatus, rotatedTo: Option<nat>, expiresAt: int)

  datatype Employee = Employee(active: bool, version: nat)

  /** Bootstrap accounts have no employee record. */
  datatype Account = Account(active: bool, deleted: bool, employee: Option<Employee>)

  datatype State = State(accounts: map<nat, Account>, tokens: seq<Token>, families: nat)

  /** The new token's position, or a refusal; the caller is not told which. */
  datatype Reply = Issued(token: nat) | Done | Refused

  /** REFRESH_TOKEN_EXPIRE_DAYS at its default (backend/app/core/config.py:40), in seconds. */
  const LIFETIME := 7 * 86400

  predicate MayAct(s: State, user: nat) {
    user in s.accounts && !s.accounts[user].deleted && s.accounts[user].active
  }

  /** `_revoke_family`. */
  function FamilyRevoked(tokens: seq<Token>, family: nat): seq<Token> {
    seq(|tokens|, i requires 0 <= i < |tokens| => if tokens[i].family == family then tokens[i].(status := Revoked) else tokens[i])
  }

  /** `list_active_families_for_user`. */
  predicate IsLiveFamilyOf(tokens: seq<Token>, user: nat, family: nat) {
    exists t <- tokens :: t.user == user && t.status != Revoked && t.family == family
  }

  /** `revoke_all_for_user`. */
  function UserRevoked(tokens: seq<Token>, user: nat): seq<Token> {
    seq(|tokens|, i requires 0 <= i < |tokens| =>
      if IsLiveFamilyOf(tokens, user, tokens[i].family) then tokens[i].(status := Revoked) else tokens[i])
  }

  /** `authenticate` and `issue_family`. */
  function Login(s: State, user: nat, passwordOk: bool, now: int): (State, Reply) {
    if user !in s.accounts || s.accounts[user].deleted || !passwordOk || !s.accounts[user].active then (s, Refused)
    else
      (s.(tokens := s.tokens + [Token(user, s.families, Active, None, now + LIFETIME)], families := s.families + 1),
       Issued(|s.tokens|))
  }

  function Rotate(s: State, token: nat, now: int): (State, Reply) {
    if token >= |s.tokens| then (s, Refused)
    else
      var t := s.tokens[token];
      if t.status != Active then (s.(tokens := FamilyRevoked(s.tokens, t.family)), Refused)
      else if t.expiresAt <= now then (s, Refused)
      else if !MayAct(s, t.user) then (s.(tokens := FamilyRevoked(s.tokens, t.family)), Refused)
      else
        var next := |s.tokens|;
        (s.(tokens := s.tokens[token := t.(status := Rotated, rotatedTo := Some(next))]
                      + [Token(t.user, t.family, Active, None, now + LIFETIME)]),
         Issued(next))
  }

  function Logout(s: State, token: nat, now: int): (State, Reply) {
    if token >= |s.tokens| || s.tokens[token].status != Active || s.tokens[token].expiresAt <= now then (s, Refused)
    else (s.(tokens := FamilyRevoked(s.tokens, s.tokens[token].family)), Done)
  }

  /** `_set_employee_active`, for an employee with an account. A caller that gives no version skips its check. */
  function SetEmployeeActive(s: State, user: nat, active: bool, version: Option<nat>, granted: bool): (State, Reply) {
    if user !in s.accounts || s.accounts[user].employee.None? || !granted then (s, Refused)
    else
      var employee := s.accounts[user].employee.value;
      if employee.active == active then (s, Done)
      else if version.Some? && version.value != employee.version then (s, Refused)
      else
        var account := s.accounts[user].(active := active, employee := Some(Employee(active, employee.version + 1)));
        (s.(accounts := s.accounts[user := account], tokens := if active then s.tokens else UserRevoked(s.tokens, user)),
         Done)
  }

  function SetUserPassword(s: State, user: nat, granted: bool): (State, Reply) {
    if user !in s.accounts || s.accounts[user].deleted || !granted then (s, Refused)
    else (s.(tokens := UserRevoked(s.tokens, user)), Done)
  }

  /** A new account is active, with an active employee record or with none. */
  function CreateAccount(s: State, user: nat, withEmployee: bool): (State, Reply) {
    if user in s.accounts then (s, Refused)
    else (s.(accounts := s.accounts[user := Account(true, false, if withEmployee then Some(Employee(true, 1)) else None)]), Done)
  }

  datatype Call =
    | NewAccount(user: nat, withEmployee: bool)
    | SignIn(user: nat, passwordOk: bool, now: int)
    | Renew(token: nat, now: int)
    | SignOut(token: nat, now: int)
    | Activity(user: nat, active: bool, version: Option<nat>, granted: bool)
    | NewPassword(user: nat, granted: bool)

  function Perform(s: State, call: Call): (State, Reply) {
    match call
    case NewAccount(user, withEmployee) => CreateAccount(s, user, withEmployee)
    case SignIn(user, passwordOk, now) => Login(s, user, passwordOk, now)
    case Renew(token, now) => Rotate(s, token, now)
    case SignOut(token, now) => Logout(s, token, now)
    case Activity(user, active, version, granted) => SetEmployeeActive(s, user, active, version, granted)
    case NewPassword(user, granted) => SetUserPassword(s, user, granted)
  }

  function Run(s: State, calls: seq<Call>): State {
    if calls == [] then s else Perform(Run(s, calls[..|calls| - 1]), calls[|calls| - 1]).0
  }

  const EMPTY := State(map[], [], 0)

  // ------------------------------------------------------------------------------------ the invariant

  predicate SameFamily(tokens: seq<Token>, i: int, j: int) {
    0 <= i < |tokens| && 0 <= j < |tokens| && tokens[i].family == tokens[j].family
  }

  /** A token links to the next member of its family, or is the last one. */
  ghost predicate LinkOk(tokens: seq<Token>, i: int)
    requires 0 <= i < |tokens|
  {
    match tokens[i].rotatedTo
    case None => forall j :: SameFamily(tokens, i, j) ==> j <= i
    case Some(next) => i < next && SameFamily(tokens, i, next) && forall j :: SameFamily(tokens, i, j) && j > i ==> j >= next
  }

  predicate StatusOk(t: Token) {
    (t.status == Active ==> t.rotatedTo.None?) && (t.status == Rotated ==> t.rotatedTo.Some?)
  }

  /** The family is revoked as a whole or not at all, and belongs to one user. */
  ghost predicate FamilyUniform(tokens: seq<Token>) {
    forall i, j :: SameFamily(tokens, i, j) ==>
      tokens[i].user == tokens[j].user && (tokens[i].status == Revoked <==> tokens[j].status == Revoked)
  }

  ghost predicate TokensOk(tokens: seq<Token>, families: nat) {
    FamilyUniform(tokens) &&
    forall i :: 0 <= i < |tokens| ==> LinkOk(tokens, i) && StatusOk(tokens[i]) && tokens[i].family < families
  }

  /** Only accounts that are active hold tokens that are not revoked. */
  predicate OwnersOk(s: State) {
    forall t <- s.tokens :: t.user in s.accounts && (!s.accounts[t.user].active ==> t.status == Revoked)
  }

  ghost predicate Inv(s: State) {
    TokensOk(s.tokens, s.families) && OwnersOk(s) &&
    forall user <- s.accounts ::
      s.accounts[user].employee.Some? ==> s.accounts[user].employee.value.active == s.accounts[user].active
  }

  /** Statuses may all be revoked along family lines without touching the chain. */
  lemma RevocationKeepsTokens(tokens: seq<Token>, revoked: seq<Token>, families: nat)
    requires TokensOk(tokens, families) && |revoked| == |tokens|
    requires forall i :: 0 <= i < |tokens| ==> revoked[i] == tokens[i] || revoked[i] == tokens[i].(status := Revoked)
    requires forall i, j :: SameFamily(tokens, i, j) && revoked[i].status == Revoked ==> revoked[j].status == Revoked
    ensures TokensOk(revoked, families)
  {
    assert forall i, j :: SameFamily(revoked, i, j) <==> SameFamily(tokens, i, j);
    forall i | 0 <= i < |revoked|
      ensures LinkOk(revoked, i) && StatusOk(revoked[i]) && revoked[i].family < families
    {
      assert LinkOk(tokens, i) && StatusOk(tokens[i]);
    }
  }

  lemma FamilyRevokedKeepsTokens(tokens: seq<Token>, family: nat, families: nat)
    requires TokensOk(tokens, families)
    ensures TokensOk(FamilyRevoked(tokens, family), families)
  {
    RevocationKeepsTokens(tokens, FamilyRevoked(tokens, family), families);
  }

  lemma UserRevokedKeepsTokens(tokens: seq<Token>, user: nat, families: nat)
    requires TokensOk(tokens, families)
    ensures TokensOk(UserRevoked(tokens, user), families)
    ensures forall t <- UserRevoked(tokens, user) :: t.user == user ==> t.status == Revoked
  {
    var revoked := UserRevoked(tokens, user);
    RevocationKeepsTokens(tokens, revoked, families);
    forall i | 0 <= i < |revoked| && revoked[i].user == user
      ensures revoked[i].status == Revoked
    {
      assert tokens[i] in tokens;
    }
  }

  lemma LoginKeepsInv(s: State, user: nat, passwordOk: bool, now: int)
    requires Inv(s)
    ensures Inv(Login(s, user, passwordOk, now).0)
  {
    var t := Login(s, user, passwordOk, now).0;
    if t != s {
      var n := |s.tokens|;
      assert forall i, j :: SameFamily(t.tokens, i, j) <==> SameFamily(s.tokens, i, j) || (i == n && j == n);
      forall i | 0 <= i < |t.tokens|
        ensures LinkOk(t.tokens, i) && StatusOk(t.tokens[i]) && t.tokens[i].family < t.families
      {
        if i < n {
          assert LinkOk(s.tokens, i) && StatusOk(s.tokens[i]);
        }
      }
    }
  }

  /** A rotation appends the new last member of the family and links the old one to it. */
  lemma RotationKeepsTokens(tokens: seq<Token>, i: nat, families: nat, expiresAt: int)
    requires TokensOk(tokens, families) && i < |tokens| && tokens[i].status == Active
    ensures TokensOk(tokens[i := tokens[i].(status := Rotated, rotatedTo := Some(|tokens|))]
                     + [Token(tokens[i].user, tokens[i].family, Active, None, expiresAt)], families)
  {
    var n := |tokens|;
    var r := tokens[i := tokens[i].(status := Rotated, rotatedTo := Some(n))]
             + [Token(tokens[i].user, tokens[i].family, Active, None, expiresAt)];
    assert LinkOk(tokens, i) && StatusOk(tokens[i]);
    assert forall j, k :: j < n && k < n ==> (SameFamily(r, j, k) <==> SameFamily(tokens, j, k));
    assert forall j :: 0 <= j < n ==> (SameFamily(r, j, n) <==> SameFamily(tokens, j, i));
    forall j | 0 <= j < |r|
      ensures LinkOk(r, j) && StatusOk(r[j]) && r[j].family < families
    {
      if j < n && j != i {
        assert LinkOk(tokens, j) && StatusOk(tokens[j]);
        if SameFamily(tokens, j, i) {
          assert SameFamily(tokens, i, j) && j < i;
        }
      }
    }
    forall j, k | SameFamily(r, j, k)
      ensures r[j].user == r[k].user && (r[j].status == Revoked <==> r[k].status == Revoked)
    {
      var a, b := if j == n then i else j, if k == n then i else k;
      assert SameFamily(tokens, a, b);
    }
  }

  lemma RotateKeepsInv(s: State, token: nat, now: int)
    requires Inv(s)
    ensures Inv(Rotate(s, token, now).0)
  {
    if token < |s.tokens| {
      var t := s.tokens[token];
      FamilyRevokedKeepsTokens(s.tokens, t.family, s.families);
      if t.status == Active {
        RotationKeepsTokens(s.tokens, token, s.families, now + LIFETIME);
      }
    }
  }

  lemma CallKeepsInv(s: State, call: Call)
    requires Inv(s)
    ensures Inv(Perform(s, call).0)
  {
    match call
    case SignIn(user, passwordOk, now) => LoginKeepsInv(s, user, passwordOk, now);
    case Renew(token, now) => RotateKeepsInv(s, token, now);
    case SignOut(token, now) =>
      if token < |s.tokens| {
        FamilyRevokedKeepsTokens(s.tokens, s.tokens[token].family, s.families);
      }
    case Activity(user, _, _, _) => UserRevokedKeepsTokens(s.tokens, user, s.families);
    case NewPassword(user, _) => UserRevokedKeepsTokens(s.tokens, user, s.families);
    case NewAccount(_, _) =>
  }

  lemma {:induction false} RunKeepsInv(calls: seq<Call>)
    ensures Inv(Run(EMPTY, calls))
  {
    if calls != [] {
      RunKeepsInv(calls[..|calls| - 1]);
      CallKeepsInv(Run(EMPTY, calls[..|calls| - 1]), calls[|calls| - 1]);
    }
  }

  // ------------------------------------------------------------------------------------ what every run promises

  /** `list_family_members`, in order of creation. */
  function Members(tokens: seq<Token>, family: nat, n: nat): (ms: seq<nat>)
    requires n <= |tokens|
    ensures forall k :: 0 <= k < |ms| ==> ms[k] < n && tokens[ms[k]].family == family
    ensures forall j, k :: 0 <= j < k < |ms| ==> ms[j] < ms[k]
  {
    if n == 0 then []
    else
      var before := Members(tokens, family, n - 1);
      if tokens[n - 1].family == family then before + [n - 1] else before
  }

  /** Wholly revoked, or rotated one into the next up to a last, active member. */
  predicate IsRevokedOrChain(tokens: seq<Token>, ms: seq<nat>)
    requires forall k :: 0 <= k < |ms| ==> ms[k] < |tokens|
  {
    (forall k :: 0 <= k < |ms| ==> tokens[ms[k]].status == Revoked) ||
    (forall k :: 0 <= k < |ms| ==> tokens[ms[k]].status == if k == |ms| - 1 then Active else Rotated)
  }

  /** The k-th member links to the one after it, the last to none. */
  predicate LinksToNext(tokens: seq<Token>, ms: seq<nat>, k: nat)
    requires k < |ms| && ms[k] < |tokens|
  {
    tokens[ms[k]].rotatedTo == if k == |ms| - 1 then None else Some(ms[k + 1])
  }

  predicate IsLinked(tokens: seq<Token>, ms: seq<nat>)
    requires forall k :: 0 <= k < |ms| ==> ms[k] < |tokens|
  {
    forall k :: 0 <= k < |ms| ==> LinksToNext(tokens, ms, k)
  }

  lemma {:induction false} EveryMemberIsListed(tokens: seq<Token>, family: nat, n: nat, i: nat) returns (j: nat)
    requires i < n <= |tokens| && tokens[i].family == family
    ensures j < |Members(tokens, family, n)| && Members(tokens, family, n)[j] == i
  {
    if i == n - 1 {
      j := |Members(tokens, family, n)| - 1;
    } else {
      j := EveryMemberIsListed(tokens, family, n - 1, i);
    }
  }

  lemma NextMember(tokens: seq<Token>, families: nat, family: nat, k: nat)
    requires TokensOk(tokens, families)
    requires k < |Members(tokens, family, |tokens|)|
    ensures LinksToNext(tokens, Members(tokens, family, |tokens|), k)
  {
    var ms := Members(tokens, family, |tokens|);
    var i := ms[k];
    assert LinkOk(tokens, i);
    if k < |ms| - 1 {
      assert SameFamily(tokens, i, ms[k + 1]);
    }
    if tokens[i].rotatedTo.Some? {
      var j := EveryMemberIsListed(tokens, family, |tokens|, tokens[i].rotatedTo.value);
    }
  }

  lemma TokensOkAreChains(tokens: seq<Token>, families: nat, family: nat)
    requires TokensOk(tokens, families)
    ensures var ms := Members(tokens, family, |tokens|); IsLinked(tokens, ms) && IsRevokedOrChain(tokens, ms)
  {
    var ms := Members(tokens, family, |tokens|);
    forall k | 0 <= k < |ms|
      ensures LinksToNext(tokens, ms, k)
    {
      NextMember(tokens, families, family, k);
    }
    forall k | 0 <= k < |ms|
      ensures tokens[ms[k]].status == if tokens[ms[0]].status == Revoked then Revoked
                                      else if k == |ms| - 1 then Active else Rotated
    {
      NextMember(tokens, families, family, k);
      assert SameFamily(tokens, ms[k], ms[0]) && StatusOk(tokens[ms[k]]);
    }
  }

  /** In every reachable state a family is one linked chain, wholly revoked or live only at its end. */
  lemma FamiliesAreChains(calls: seq<Call>, family: nat)
    ensures var tokens := Run(EMPTY, calls).tokens;
            var ms := Members(tokens, family, |tokens|);
            IsLinked(tokens, ms) && IsRevokedOrChain(tokens, ms)
  {
    RunKeepsInv(calls);
    TokensOkAreChains(Run(EMPTY, calls).tokens, Run(EMPTY, calls).families, family);
  }

  /** An inactive account has only revoked tokens. */
  lemma {:induction false} InactiveAccountsAreSignedOut(calls: seq<Call>, i: nat)
    requires i < |Run(EMPTY, calls).tokens|
    ensures var s := Run(EMPTY, calls);
            s.tokens[i].user in s.accounts && (!s.accounts[s.tokens[i].user].active ==> s.tokens[i].status == Revoked)
  {
    RunKeepsInv(calls);
    assert Run(EMPTY, calls).tokens[i] in Run(EMPTY, calls).tokens;
  }

  /** A token is only ever issued to an active account; a renewal uses up an unexpired active token of the same family. */
  lemma TokensGoToActiveAccounts(s: State, call: Call)
    requires Perform(s, call).1.Issued?
    ensures var t, i := Perform(s, call).0, |s.tokens|;
            && Perform(s, call).1.token == i && |t.tokens| == i + 1
            && t.tokens[i].status == Active && t.tokens[i].rotatedTo.None? && MayAct(s, t.tokens[i].user)
            && (call.Renew? ==> call.token < i && s.tokens[call.token].status == Active && call.now < s.tokens[call.token].expiresAt
                                && t.tokens[i].family == s.tokens[call.token].family && t.tokens[i].user == s.tokens[call.token].user
                                && t.tokens[call.token].status == Rotated)
            && (call.SignIn? ==> call.passwordOk && t.tokens[i].user == call.user && t.tokens[i].family == s.families)
  {
  }

  /** A token that is no longer active never becomes active again. */
  lemma StaleTokenStaysStale(s: State, call: Call, i: nat)
    requires i < |s.tokens| && s.tokens[i].status != Active
    ensures var t := Perform(s, call).0; i < |t.tokens| && t.tokens[i].status != Active
  {
  }

  lemma {:induction false} RunFrom(calls: seq<Call>, more: seq<Call>, call: Call)
    ensures Run(EMPTY, calls + (more + [call])) == Perform(Run(EMPTY, calls + more), call).0
  {
    assert (calls + (more + [call]))[..|calls + more|] == calls + more;
  }

  /** Once a token has been rotated, no later call rotates it again. */
  lemma {:induction false} RotatedAtMostOnce(calls: seq<Call>, token: nat, now: int, more: seq<Call>, later: int)
    requires Rotate(Run(EMPTY, calls), token, now).1.Issued?
    ensures Rotate(Run(EMPTY, calls + ([Renew(token, now)] + more)), token, later).1 == Refused
  {
    StaysStaleAlong(calls, token, now, more);
  }

  lemma {:induction false} StaysStaleAlong(calls: seq<Call>, token: nat, now: int, more: seq<Call>)
    requires Rotate(Run(EMPTY, calls), token, now).1.Issued?
    ensures var t := Run(EMPTY, calls + ([Renew(token, now)] + more)); token < |t.tokens| && t.tokens[token].status != Active
    decreases |more|
  {
    if more == [] {
      RunFrom(calls, [], Renew(token, now));
      assert [Renew(token, now)] + more == [] + [Renew(token, now)] && calls + [] == calls;
    } else {
      var n := |more| - 1;
      var soFar := [Renew(token, now)] + more[..n];
      StaysStaleAlong(calls, token, now, more[..n]);
      RunFrom(calls, soFar, more[n]);
      assert [Renew(token, now)] + more == soFar + [more[n]];
      StaleTokenStaysStale(Run(EMPTY, calls + soFar), more[n], token);
    }
  }

  /** The family has been revoked and nothing has joined it since there were `size` tokens. */
  predicate IsDead(s: State, family: nat, size: nat) {
    family < s.families && forall i :: 0 <= i < |s.tokens| && s.tokens[i].family == family ==> s.tokens[i].status == Revoked && i < size
  }

  lemma DeadFamilyStaysDead(s: State, call: Call, family: nat, size: nat)
    requires IsDead(s, family, size)
    ensures IsDead(Perform(s, call).0, family, size)
  {
  }

  lemma PresentingKills(s: State, token: nat, now: int)
    requires Inv(s) && token < |s.tokens| && s.tokens[token].status != Active
    ensures IsDead(Rotate(s, token, now).0, s.tokens[token].family, |s.tokens|)
  {
  }

  /** After a rotated token is presented again, its family yields no token, whatever calls follow. */
  lemma {:induction false} ReuseKillsFamily(calls: seq<Call>, token: nat, now: int, more: seq<Call>)
    requires token < |Run(EMPTY, calls).tokens| && Run(EMPTY, calls).tokens[token].status != Active
    ensures var s := Run(EMPTY, calls);
            IsDead(Run(EMPTY, calls + ([Renew(token, now)] + more)), s.tokens[token].family, |s.tokens|)
    decreases |more|
  {
    hide IsDead, Inv, Rotate, FamilyRevoked;
    var family := Run(EMPTY, calls).tokens[token].family;
    if more == [] {
      RunKeepsInv(calls);
      RunFrom(calls, [], Renew(token, now));
      PresentingKills(Run(EMPTY, calls), token, now);
      assert [Renew(token, now)] + more == [] + [Renew(token, now)] && calls + [] == calls;
    } else {
      var n := |more| - 1;
      var soFar := [Renew(token, now)] + more[..n];
      ReuseKillsFamily(calls, token, now, more[..n]);
      RunFrom(calls, soFar, more[n]);
      assert [Renew(token, now)] + more == soFar + [more[n]];
      DeadFamilyStaysDead(Run(EMPTY, calls + soFar), more[n], family, |Run(EMPTY, calls).tokens|);
    }
  }
}

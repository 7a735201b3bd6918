/**
 What each session call does to the tokens, and exactly when, in terms of the call's own arguments and the rows before
 it (backend/app/modules/user/auth_service.py, employee_service.py), and what that means for every later call.
 */
module TokenEffects {
  import opened Wrappers
  import opened TokenFamilies

  predicate IsOpenAccount(s: State, user: nat) {
    user in s.accounts && s.accounts[user].active && !s.accounts[user].deleted
  }

  predicate IsUsable(s: State, token: nat, now: int) {
    token < |s.tokens| && s.tokens[token].status.Active? && now < s.tokens[token].expiresAt
  }

  /** Every token of the family is revoked; every other token is as it was. */
  ghost predicate FamilyEnds(before: seq<Token>, after: seq<Token>, family: nat) {
    |after| == |before| && forall i :: 0 <= i < |before| ==>
      after[i] == if before[i].family == family then before[i].(status := TokenStatus.Revoked) else before[i]
  }

  /** Every token of the user is revoked; every other token is as it was. */
  ghost predicate UserEnds(before: seq<Token>, after: seq<Token>, user: nat) {
    |after| == |before| && forall i :: 0 <= i < |before| ==>
      after[i] == if before[i].user == user then before[i].(status := TokenStatus.Revoked) else before[i]
  }

  lemma RevocationEndsFamily(tokens: seq<Token>, family: nat)
    ensures FamilyEnds(tokens, FamilyRevoked(tokens, family), family)
  {
  }

  /** As a family belongs to one user, revoking the live families of a user revokes exactly the user's tokens. */
  lemma RevocationEndsUser(tokens: seq<Token>, user: nat, families: nat)
    requires TokensOk(tokens, families)
    ensures UserEnds(tokens, UserRevoked(tokens, user), user)
  {
    forall i | 0 <= i < |tokens|
      ensures UserRevoked(tokens, user)[i] == if tokens[i].user == user then tokens[i].(status := TokenStatus.Revoked) else tokens[i]
    {
      if tokens[i].user == user {
        assert tokens[i] in tokens;
      } else if IsLiveFamilyOf(tokens, user, tokens[i].family) {
        var t :| t in tokens && t.user == user && t.family == tokens[i].family;
        var j :| 0 <= j < |tokens| && tokens[j] == t;
        assert SameFamily(tokens, i, j);
      }
    }
  }

  // ------------------------------------------------------------------------------------ one call

  /** A new account is open, with an active employee record of version 1 or with none; it has no token. */
  lemma AccountEffect(s: State, user: nat, withEmployee: bool)
    ensures var (t, reply) := CreateAccount(s, user, withEmployee);
            if user in s.accounts then t == s && reply == Refused
            else
              reply == Done && t.tokens == s.tokens && t.families == s.families && IsOpenAccount(t, user) &&
              t.accounts.Keys == s.accounts.Keys + {user} && (forall other <- s.accounts :: t.accounts[other] == s.accounts[other]) &&
              t.accounts[user].employee == if withEmployee then Some(Employee(true, 1)) else None
  {
  }

  /** A login of an open account with its password starts a new family of one active token. */
  lemma LoginEffect(s: State, user: nat, passwordOk: bool, now: int)
    ensures var (t, reply) := Login(s, user, passwordOk, now);
            if IsOpenAccount(s, user) && passwordOk then
              reply == Issued(|s.tokens|) && t.accounts == s.accounts && t.families == s.families + 1 &&
              t.tokens == s.tokens + [Token(user, s.families, Active, None, now + 7 * 24 * 60 * 60)]
            else t == s && reply == Refused
  {
  }

  /**
   A rotation of a usable token of an open account replaces it; of a token that is not active, or of an active one whose
   account is closed and that has not expired, ends the family; of an expired one, changes nothing.
   */
  lemma RotationEffect(s: State, token: nat, now: int)
    ensures var (t, reply) := Rotate(s, token, now);
            && t.accounts == s.accounts && t.families == s.families
            && (reply.Issued? <==> IsUsable(s, token, now) && IsOpenAccount(s, s.tokens[token].user))
            && (reply.Issued? ==>
                  var was := s.tokens[token];
                  && reply.token == |s.tokens| && |t.tokens| == |s.tokens| + 1
                  && t.tokens[|s.tokens|] == Token(was.user, was.family, Active, None, now + 7 * 24 * 60 * 60)
                  && t.tokens[token] == Token(was.user, was.family, Rotated, Some(|s.tokens|), was.expiresAt)
                  && forall i :: 0 <= i < |s.tokens| && i != token ==> t.tokens[i] == s.tokens[i])
            && (!reply.Issued? ==>
                  (reply == Refused &&
                   if token < |s.tokens| && (!s.tokens[token].status.Active? || now < s.tokens[token].expiresAt)
                   then FamilyEnds(s.tokens, t.tokens, s.tokens[token].family) else t.tokens == s.tokens))
  {
    if token < |s.tokens| {
      RevocationEndsFamily(s.tokens, s.tokens[token].family);
    }
  }

  /** A logout with a usable token ends its family; with any other it is refused and changes nothing. */
  lemma LogoutEffect(s: State, token: nat, now: int)
    ensures var (t, reply) := Logout(s, token, now);
            && t.accounts == s.accounts && t.families == s.families
            && (reply == if IsUsable(s, token, now) then Done else Refused)
            && (if IsUsable(s, token, now) then FamilyEnds(s.tokens, t.tokens, s.tokens[token].family) else t.tokens == s.tokens)
  {
    if token < |s.tokens| {
      RevocationEndsFamily(s.tokens, s.tokens[token].family);
    }
  }

  /** A new password ends all the user's tokens and nobody else's. */
  lemma PasswordEffect(s: State, user: nat, granted: bool)
    requires Inv(s)
    ensures var (t, reply) := SetUserPassword(s, user, granted);
            if user in s.accounts && !s.accounts[user].deleted && granted then
              reply == Done && t.accounts == s.accounts && t.families == s.families && UserEnds(s.tokens, t.tokens, user)
            else t == s && reply == Refused
  {
    RevocationEndsUser(s.tokens, user, s.families);
  }

  /** An employee and the account change together, one version on; a deactivation ends all the user's tokens. */
  lemma ActivityEffect(s: State, user: nat, active: bool, version: Option<nat>, granted: bool)
    requires Inv(s)
    ensures var (t, reply) := SetEmployeeActive(s, user, active, version, granted);
            if user !in s.accounts || s.accounts[user].employee.None? || !granted then t == s && reply == Refused
            else
              var now := s.accounts[user].employee.value;
              if now.active == active then t == s && reply == Done
              else if version != None && version != Some(now.version) then t == s && reply == Refused
              else
                && reply == Done && t.families == s.families && t.accounts.Keys == s.accounts.Keys
                && t.accounts[user] == Account(active, s.accounts[user].deleted, Some(Employee(active, now.version + 1)))
                && (forall other <- s.accounts :: other != user ==> t.accounts[other] == s.accounts[other])
                && if active then t.tokens == s.tokens else UserEnds(s.tokens, t.tokens, user)
  {
    RevocationEndsUser(s.tokens, user, s.families);
  }

  // ------------------------------------------------------------------------------------ and for good

  /** A family that has ended stays ended. */
  lemma {:induction false} DeadForGood(calls: seq<Call>, more: seq<Call>, family: nat, size: nat)
    requires IsDead(Run(EMPTY, calls), family, size)
    ensures IsDead(Run(EMPTY, calls + more), family, size)
    decreases |more|
  {
    hide IsDead, Perform;
    if more == [] {
      assert calls + more == calls;
    } else {
      var n := |more| - 1;
      DeadForGood(calls, more[..n], family, size);
      RunFrom(calls, more[..n], more[n]);
      assert more == more[..n] + [more[n]];
      DeadFamilyStaysDead(Run(EMPTY, calls + more[..n]), more[n], family, size);
    }
  }

  lemma LastCall(calls: seq<Call>, call: Call)
    ensures Run(EMPTY, calls + [call]) == Perform(Run(EMPTY, calls), call).0
  {
    assert (calls + [call])[..|calls|] == calls;
  }

  /** After a logout no call ever adds to the family or renews one of its tokens. */
  lemma LogoutIsForGood(calls: seq<Call>, token: nat, now: int, more: seq<Call>)
    requires IsUsable(Run(EMPTY, calls), token, now)
    ensures var s := Run(EMPTY, calls);
            IsDead(Run(EMPTY, calls + [SignOut(token, now)] + more), s.tokens[token].family, |s.tokens|)
  {
    hide Run;
    var s := Run(EMPTY, calls);
    RunKeepsInv(calls);
    LogoutEffect(s, token, now);
    LastCall(calls, SignOut(token, now));
    var t := Run(EMPTY, calls + [SignOut(token, now)]);
    assert IsDead(t, s.tokens[token].family, |s.tokens|);
    DeadForGood(calls + [SignOut(token, now)], more, s.tokens[token].family, |s.tokens|);
  }

  /** After a new password no call ever adds to a family that the user had, or renews one of its tokens. */
  lemma PasswordIsForGood(calls: seq<Call>, user: nat, more: seq<Call>, i: nat)
    requires var s := Run(EMPTY, calls); user in s.accounts && !s.accounts[user].deleted && i < |s.tokens| && s.tokens[i].user == user
    ensures var s := Run(EMPTY, calls);
            IsDead(Run(EMPTY, calls + [NewPassword(user, true)] + more), s.tokens[i].family, |s.tokens|)
  {
    hide Run;
    var s := Run(EMPTY, calls);
    RunKeepsInv(calls);
    PasswordEffect(s, user, true);
    LastCall(calls, NewPassword(user, true));
    UserEndsFamily(s, Run(EMPTY, calls + [NewPassword(user, true)]), user, i);
    DeadForGood(calls + [NewPassword(user, true)], more, s.tokens[i].family, |s.tokens|);
  }

  /** The same after a deactivation, even once the account is active again. */
  lemma DeactivationIsForGood(calls: seq<Call>, user: nat, more: seq<Call>, i: nat)
    requires var s := Run(EMPTY, calls);
             user in s.accounts && s.accounts[user].employee.Some? && s.accounts[user].active && i < |s.tokens| && s.tokens[i].user == user
    ensures var s := Run(EMPTY, calls);
            IsDead(Run(EMPTY, calls + [Activity(user, false, None, true)] + more), s.tokens[i].family, |s.tokens|)
  {
    hide Run;
    var s := Run(EMPTY, calls);
    RunKeepsInv(calls);
    ActivityEffect(s, user, false, None, true);
    LastCall(calls, Activity(user, false, None, true));
    UserEndsFamily(s, Run(EMPTY, calls + [Activity(user, false, None, true)]), user, i);
    DeadForGood(calls + [Activity(user, false, None, true)], more, s.tokens[i].family, |s.tokens|);
  }

  lemma UserEndsFamily(s: State, t: State, user: nat, i: nat)
    requires Inv(s) && t.families == s.families && UserEnds(s.tokens, t.tokens, user)
    requires i < |s.tokens| && s.tokens[i].user == user
    ensures IsDead(t, s.tokens[i].family, |s.tokens|)
  {
    forall j | 0 <= j < |t.tokens| && t.tokens[j].family == s.tokens[i].family
      ensures t.tokens[j].status == TokenStatus.Revoked
    {
      assert SameFamily(s.tokens, j, i);
    }
  }

  /** A token of an ended family is never renewed. */
  lemma DeadIsRefused(s: State, family: nat, size: nat, token: nat, now: int)
    requires IsDead(s, family, size) && token < |s.tokens| && s.tokens[token].family == family
    ensures Rotate(s, token, now).1 == Refused && Logout(s, token, now).1 == Refused
  {
  }
}

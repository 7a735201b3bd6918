/**
 The session services as the repository runs them: rows overwritten one by one, then a commit. Each is proved to have
 the effect and the reply that TokenFamilies gives its call.
 */
module TokenService {
  import opened Wrappers
  import opened TokenFamilies

  class Session {
    var accounts: map<nat, Account>
    var tokens: seq<Token>
    var families: nat
    var committed: State

    function View(): State
      reads this
    {
      State(accounts, tokens, families)
    }

    /** Nothing is uncommitted, and what is committed satisfies the invariant of every run. */
    ghost predicate Valid()
      reads this
    {
      View() == committed && Inv(committed)
    }

    constructor ()
      ensures Valid() && committed == EMPTY
    {
      accounts, tokens, families, committed := map[], [], 0, EMPTY;
    }

    method Commit()
      modifies this`committed
      ensures committed == View()
    {
      committed := View();
    }

    /** The loop over `list_family_members`, before any commit. */
    method RevokeMembers(family: nat)
      modifies this`tokens
      ensures tokens == FamilyRevoked(old(tokens), family)
    {
      for i := 0 to |tokens|
        invariant |tokens| == |old(tokens)|
        invariant forall k :: 0 <= k < |tokens| ==> tokens[k] == if k < i then FamilyRevoked(old(tokens), family)[k] else old(tokens)[k]
      {
        if tokens[i].family == family {
          tokens := tokens[i := tokens[i].(status := Revoked)];
        }
      }
      assert tokens == FamilyRevoked(old(tokens), family);
    }

    /** `_revoke_family`. */
    method RevokeFamily(family: nat)
      modifies this`tokens, this`committed
      ensures tokens == FamilyRevoked(old(tokens), family) && committed == View()
    {
      RevokeMembers(family);
      Commit();
    }

    /** `revoke_all_for_user`: every member of every family in which the user has a token that is not revoked. */
    method RevokeAllForUser(user: nat)
      modifies this`tokens, this`committed
      ensures tokens == UserRevoked(old(tokens), user) && committed == View()
    {
      ghost var live := set t <- tokens | t.user == user && t.status != Revoked :: t.family;
      var left := set t <- tokens | t.user == user && t.status != Revoked :: t.family;
      while left != {}
        invariant left <= live && |tokens| == |old(tokens)|
        invariant forall k :: 0 <= k < |tokens| ==>
          tokens[k] == if old(tokens)[k].family in live - left then old(tokens)[k].(status := Revoked) else old(tokens)[k]
        decreases |left|
      {
        var family :| family in left;
        RevokeMembers(family);
        left := left - {family};
      }
      forall k | 0 <= k < |tokens|
        ensures tokens[k] == UserRevoked(old(tokens), user)[k]
      {
        assert IsLiveFamilyOf(old(tokens), user, old(tokens)[k].family) <==> old(tokens)[k].family in live;
      }
      assert tokens == UserRevoked(old(tokens), user);
      Commit();
    }

    /** `authenticate`, then `issue_family`. */
    method Login(user: nat, passwordOk: bool, now: int) returns (reply: Reply)
      requires Valid()
      modifies this
      ensures Valid()
      ensures (committed, reply) == TokenFamilies.Login(old(committed), user, passwordOk, now)
    {
      hide Inv;
      CallKeepsInv(committed, SignIn(user, passwordOk, now));
      if user !in accounts || accounts[user].deleted {
        return Refused;
      }
      if !passwordOk {
        return Refused;
      }
      if !accounts[user].active {
        return Refused;
      }
      tokens := tokens + [Token(user, families, Active, None, now + LIFETIME)];
      families := families + 1;
      Commit();
      reply := Issued(|tokens| - 1);
    }

    method Rotate(token: nat, now: int) returns (reply: Reply)
      requires Valid()
      modifies this
      ensures Valid()
      ensures (committed, reply) == TokenFamilies.Rotate(old(committed), token, now)
    {
      hide Inv;
      CallKeepsInv(committed, Renew(token, now));
      if token >= |tokens| {
        return Refused;
      }
      var member := tokens[token];
      if member.status != Active {
        RevokeFamily(member.family);
        return Refused;
      }
      if member.expiresAt <= now {
        return Refused;
      }
      if member.user !in accounts || accounts[member.user].deleted || !accounts[member.user].active {
        RevokeFamily(member.family);
        return Refused;
      }
      var next := |tokens|;
      tokens := tokens + [Token(member.user, member.family, Active, None, now + LIFETIME)];
      tokens := tokens[token := tokens[token].(status := Rotated)];
      tokens := tokens[token := tokens[token].(rotatedTo := Some(next))];
      assert tokens == TokenFamilies.Rotate(old(committed), token, now).0.tokens;
      Commit();
      reply := Issued(next);
    }

    method Logout(token: nat, now: int) returns (reply: Reply)
      requires Valid()
      modifies this
      ensures Valid()
      ensures (committed, reply) == TokenFamilies.Logout(old(committed), token, now)
    {
      hide Inv;
      CallKeepsInv(committed, SignOut(token, now));
      if token >= |tokens| || tokens[token].status != Active || tokens[token].expiresAt <= now {
        return Refused;
      }
      RevokeFamily(tokens[token].family);
      reply := Done;
    }

    /** `_set_employee_active`: the account follows its employee, and a deactivation signs it out. */
    method SetEmployeeActive(user: nat, active: bool, version: Option<nat>, granted: bool) returns (reply: Reply)
      requires Valid()
      modifies this
      ensures Valid()
      ensures (committed, reply) == TokenFamilies.SetEmployeeActive(old(committed), user, active, version, granted)
    {
      hide Inv;
      CallKeepsInv(committed, Activity(user, active, version, granted));
      if user !in accounts || accounts[user].employee.None? || !granted {
        return Refused;
      }
      var employee := accounts[user].employee.value;
      if employee.active != active {
        if version.Some? && employee.version != version.value {
          return Refused;
        }
        accounts := accounts[user := accounts[user].(employee := Some(Employee(active, employee.version + 1)))];
        accounts := accounts[user := accounts[user].(active := active)];
        assert accounts == old(accounts)[user := accounts[user]];
        if !active {
          RevokeAllForUser(user);
        }
      }
      Commit();
      reply := Done;
    }

    method SetUserPassword(user: nat, granted: bool) returns (reply: Reply)
      requires Valid()
      modifies this
      ensures Valid()
      ensures (committed, reply) == TokenFamilies.SetUserPassword(old(committed), user, granted)
    {
      hide Inv;
      CallKeepsInv(committed, NewPassword(user, granted));
      if user !in accounts || accounts[user].deleted || !granted {
        return Refused;
      }
      RevokeAllForUser(user);
      Commit();
      reply := Done;
    }
  }
}

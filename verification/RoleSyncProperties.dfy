/** What logins mean for the roles a user holds, over one sync and over whole runs of logins. */
module RoleSyncProperties {
  import opened Types
  import opened RoleSync

  // ---------- One sync is a replacement ----------

  lemma {:induction false} NamesAfterRows(
    roles: map<string, string>, grants: set<(string, string)>, user: string, added: set<string>, removed: set<string>)
    requires DistinctIds(roles) && added <= roles.Keys && removed <= roles.Keys
    ensures
      Names(roles, grants + Rows(roles, user, added) - Rows(roles, user, removed), user)
      == Names(roles, grants, user) + added - removed
  {
    var after := grants + Rows(roles, user, added) - Rows(roles, user, removed);
    forall n | n in roles
      ensures (user, roles[n]) in after <==> n in Names(roles, grants, user) + added - removed
    {
      assert (user, roles[n]) in Rows(roles, user, added) <==> n in added;
      assert (user, roles[n]) in Rows(roles, user, removed) <==> n in removed;
    }
  }

  /** In terms of names, a sync leaves Synced to the user, and nothing changes for anybody else. */
  lemma {:induction false} SyncedNames(
    roles: map<string, string>, grants: set<(string, string)>, user: string, claim: seq<string>, f: Faults)
    requires DistinctIds(roles)
    ensures
      var after := AfterSync(roles, grants, user, claim, f);
      && Names(roles, after, user) == Synced(roles.Keys, Names(roles, grants, user), claim, f)
      && forall other | other != user :: Names(roles, after, other) == Names(roles, grants, other)
  {
    var held := Names(roles, grants, user);
    NamesAfterRows(roles, grants, user, Granted(roles.Keys, held, claim, f, |claim|), Revoked(held, claim, f));
  }

  /**
   * syncRoles leaves exactly the requested roles that exist locally if and only if every missing one could be
   * looked up and assigned at some position of the claim and no stale one resisted removal.
   */
  lemma {:induction false} SyncExactly(known: set<string>, held: set<string>, claim: seq<string>, f: Faults)
    requires held <= known
    ensures
      Synced(known, held, claim, f) == Elements(claim) * known <==>
      && (forall n | n in Elements(claim) * known - held :: Reached(claim, n, f, |claim|))
      && (held - Elements(claim)) !! f.removals
  {
    var after, wanted := Synced(known, held, claim, f), Elements(claim) * known;
    forall n ensures n in after <==> (if n in wanted then n in held || Reached(claim, n, f, |claim|)
                                      else n in held && n in f.removals)
    {
      assert Reached(claim, n, f, |claim|) ==> n in claim;
    }
    if after == wanted {
      forall n | n in wanted - held ensures Reached(claim, n, f, |claim|) {
        assert n in after;
      }
      forall n | n in held - Elements(claim) ensures n !in f.removals {
        assert n !in after;
      }
    }
  }

  lemma {:induction false} NoFaultReaches(claim: seq<string>, f: Faults)
    requires f.lookups == {} && f.assigns == {}
    ensures forall n :: Reached(claim, n, f, |claim|) <==> n in claim
  {
  }

  /** When the store works, syncing is replacing, whatever was held and however the claim repeats or orders names. */
  lemma {:induction false} SyncIsReplacement(known: set<string>, held: set<string>, claim: seq<string>, f: Faults)
    requires held <= known && f.lookups == {} && f.assigns == {} && f.removals == {}
    ensures Synced(known, held, claim, f) == Elements(claim) * known
  {
    NoFaultReaches(claim, f);
    SyncExactly(known, held, claim, f);
  }

  /** Meeting the same failures again, a second sync changes nothing. */
  lemma {:induction false} SecondSyncIsIdle(known: set<string>, held: set<string>, claim: seq<string>, f: Faults)
    ensures Synced(known, Synced(known, held, claim, f), claim, f) == Synced(known, held, claim, f)
  {
    var once := Synced(known, held, claim, f);
    forall n ensures n in Synced(known, once, claim, f) <==> n in once {
      assert Reached(claim, n, f, |claim|) ==> n in claim;
    }
  }

  /** Whatever fails, no requested role is taken away, no unrequested one is given, and no repair is undone. */
  lemma {:induction false} SyncNeverStraysFurther(known: set<string>, held: set<string>, claim: seq<string>, f: Faults)
    requires held <= known
    ensures
      var after, wanted := Synced(known, held, claim, f), Elements(claim) * known;
      && held * wanted <= after <= held + wanted
      && wanted - after <= wanted - held
      && after - wanted <= held - wanted
  {
    forall n | n in Granted(known, held, claim, f, |claim|) ensures n in Elements(claim) {
      assert Reached(claim, n, f, |claim|);
    }
  }

  // ---------- Logins ----------

  ghost function RolesOf(d: Directory, a: Accounts, subject: string): set<string>
  {
    if subject in a.users then Names(d.roles, a.grants, a.users[subject].id) else {}
  }

  ghost predicate Possible(a: Accounts, login: Login)
  {
    login.subject in a.users || Fresh(a, login.newId)
  }

  lemma {:induction false} ClaimKeepsConsistent(d: Directory, a: Accounts, subject: string, login: Login)
    requires Consistent(d, a) && subject in a.users
    ensures Consistent(d, ClaimApplied(d, a, a.users[subject].id, login))
  {
    var after := ClaimApplied(d, a, a.users[subject].id, login);
    forall p | p in after.grants
      ensures p.1 in d.roles.Values && exists s :: s in a.users && a.users[s].id == p.0
    {
      if p !in a.grants {
        assert p.0 == a.users[subject].id;
      }
    }
  }

  lemma {:induction false} UsersUpdated(d: Directory, a: Accounts, subject: string, user: User)
    requires Consistent(d, a)
    requires if subject in a.users then user.id == a.users[subject].id else Fresh(a, user.id)
    ensures Consistent(d, a.(users := a.users[subject := user]))
  {
    var after := a.(users := a.users[subject := user]);
    forall p | p in after.grants ensures exists s :: s in after.users && after.users[s].id == p.0 {
      var s :| s in a.users && a.users[s].id == p.0;
      assert s in after.users && after.users[s].id == p.0;
    }
  }

  lemma {:induction false} DefaultGranted(d: Directory, a: Accounts, subject: string)
    requires Consistent(d, a) && subject in a.users && d.defaultRole in d.roles
    ensures
      var after := a.(grants := a.grants + {(a.users[subject].id, d.roles[d.defaultRole])});
      && Consistent(d, after)
      && RolesOf(d, after, subject) == RolesOf(d, a, subject) + {d.defaultRole}
      && forall other | other != subject :: RolesOf(d, after, other) == RolesOf(d, a, other)
  {
    NamesAfterRows(d.roles, a.grants, a.users[subject].id, {d.defaultRole}, {});
    assert Rows(d.roles, a.users[subject].id, {d.defaultRole}) == {(a.users[subject].id, d.roles[d.defaultRole])};
    var after := a.(grants := a.grants + {(a.users[subject].id, d.roles[d.defaultRole])});
    assert after.grants ==
      a.grants + Rows(d.roles, a.users[subject].id, {d.defaultRole}) - Rows(d.roles, a.users[subject].id, {});
    forall p | p in after.grants
      ensures p.1 in d.roles.Values && exists s :: s in after.users && after.users[s].id == p.0
    {
      if p !in a.grants {
        assert after.users[subject].id == p.0;
      }
    }
  }

  /** The roles a claim leaves: untouched by an empty claim or an unreadable role list. */
  ghost function ClaimedRoles(d: Directory, held: set<string>, login: Login): set<string>
  {
    if login.claim == [] || login.faults.roleList then held
    else Synced(d.roles.Keys, held, login.claim, login.faults)
  }

  lemma {:induction false} ClaimRoles(d: Directory, a: Accounts, subject: string, login: Login)
    requires Consistent(d, a) && subject in a.users
    ensures
      var after := ClaimApplied(d, a, a.users[subject].id, login);
      && after.users == a.users
      && RolesOf(d, after, subject) == ClaimedRoles(d, RolesOf(d, a, subject), login)
      && forall other | other != subject :: RolesOf(d, after, other) == RolesOf(d, a, other)
  {
    SyncedNames(d.roles, a.grants, a.users[subject].id, login.claim, login.faults);
  }

  /** A new account has no roles: nobody can have been granted any under its id. */
  lemma {:induction false} NewcomerHasNoRoles(d: Directory, a: Accounts, subject: string, user: User)
    requires Consistent(d, a) && subject !in a.users && Fresh(a, user.id)
    ensures RolesOf(d, a.(users := a.users[subject := user]), subject) == {}
  {
    forall p | p in a.grants ensures p.0 != user.id {
      var s :| s in a.users && a.users[s].id == p.0;
    }
  }

  /** The roles a user holds after a login, in terms of the roles held before; others keep theirs. */
  ghost function RolesAfter(d: Directory, a: Accounts, login: Login): set<string>
  {
    var f, held := login.faults, RolesOf(d, a, login.subject);
    if f.find then held
    else if login.subject in a.users then
      if !a.users[login.subject].isActive || f.update then held else ClaimedRoles(d, held, login)
    else if f.create || f.defaultLookup || d.defaultRole !in d.roles || f.defaultAssign then {}
    else ClaimedRoles(d, {d.defaultRole}, login)
  }

  /** What a login leaves alone, beside its contribution to its own user. */
  ghost predicate LoginEffect(d: Directory, a: Accounts, b: Accounts, login: Login)
  {
    && Consistent(d, b)
    && RolesOf(d, b, login.subject) == RolesAfter(d, a, login)
    && (forall other | other != login.subject ::
          && RolesOf(d, b, other) == RolesOf(d, a, other)
          && (other in b.users <==> other in a.users)
          && (other in a.users ==> b.users[other] == a.users[other]))
    && (forall s | s in a.users ::
          s in b.users && b.users[s].id == a.users[s].id && b.users[s].isActive == a.users[s].isActive)
  }

  lemma {:induction false} RefreshRoles(d: Directory, a: Accounts, login: Login)
    requires Consistent(d, a) && login.subject in a.users && a.users[login.subject].isActive
    requires !login.faults.find && !login.faults.update
    ensures LoginEffect(d, a, AfterLogin(d, a, login), login)
  {
    var user := a.users[login.subject].(email := login.email, name := login.name);
    var updated := a.(users := a.users[login.subject := user]);
    UsersUpdated(d, a, login.subject, user);
    ClaimKeepsConsistent(d, updated, login.subject, login);
    ClaimRoles(d, updated, login.subject, login);
  }

  lemma {:induction false} RegisterRoles(d: Directory, a: Accounts, login: Login)
    requires Consistent(d, a) && login.subject !in a.users && Fresh(a, login.newId)
    requires !login.faults.find && !login.faults.create
    ensures LoginEffect(d, a, AfterLogin(d, a, login), login)
  {
    var user := User(login.newId, login.email, login.name, true);
    var created := a.(users := a.users[login.subject := user]);
    UsersUpdated(d, a, login.subject, user);
    NewcomerHasNoRoles(d, a, login.subject, user);
    if !login.faults.defaultLookup && d.defaultRole in d.roles && !login.faults.defaultAssign {
      DefaultGranted(d, created, login.subject);
      var granted := created.(grants := created.grants + {(login.newId, d.roles[d.defaultRole])});
      ClaimKeepsConsistent(d, granted, login.subject, login);
      ClaimRoles(d, granted, login.subject, login);
    }
  }

  /** Every login, whatever fails, keeps the tables consistent and changes only its own user's account and roles. */
  lemma {:induction false} LoginIsLocal(d: Directory, a: Accounts, login: Login)
    requires Consistent(d, a) && Possible(a, login)
    ensures LoginEffect(d, a, AfterLogin(d, a, login), login)
  {
    if !login.faults.find {
      if login.subject in a.users {
        if a.users[login.subject].isActive && !login.faults.update {
          RefreshRoles(d, a, login);
        }
      } else if !login.faults.create {
        RegisterRoles(d, a, login);
      }
    }
  }

  /**
   * The accounts after any login: under its subject the given e-mail and name, with the old identifier or,
   * for a new account, the generated one, and active; all other accounts, and all after a login that is
   * rejected or fails before writing, are as they were.
   */
  lemma {:induction false} AccountsExactly(d: Directory, a: Accounts, login: Login)
    ensures
      var f, known := login.faults, login.subject in a.users;
      AfterLogin(d, a, login).users ==
      if f.find || (if known then !a.users[login.subject].isActive || f.update else f.create) then a.users
      else a.users[login.subject :=
             User(if known then a.users[login.subject].id else login.newId, login.email, login.name, true)]
  {
    if !login.faults.find && login.subject in a.users && a.users[login.subject].isActive && !login.faults.update {
      var user := a.users[login.subject].(email := login.email, name := login.name);
      assert user == User(a.users[login.subject].id, login.email, login.name, true);
      assert AfterLogin(d, a, login).users == a.users[login.subject := user];
    }
  }

  /** What is returned is what was given: a completed login signs in with the e-mail and name it came with. */
  lemma {:induction false} ProfileIsStored(d: Directory, a: Accounts, login: Login)
    requires Completes(d, a, login)
    ensures
      var after := AfterLogin(d, a, login).users;
      && login.subject in after && after[login.subject].isActive
      && after[login.subject].email == login.email && after[login.subject].name == login.name
  {
    AccountsExactly(d, a, login);
  }

  /**
   * Role by role, after a login that gets as far as the claim: without a claim, or when the roles cannot be
   * read, nothing changes; otherwise a claimed role is held if it was or some position of the claim naming it
   * could be looked up and assigned, and an unclaimed one only if it was held and resisted removal.
   */
  lemma {:induction false} HeldAfterLoginExactly(d: Directory, a: Accounts, login: Login, role: string)
    requires Consistent(d, a) && Possible(a, login) && !login.faults.find
    requires
      if login.subject in a.users then a.users[login.subject].isActive && !login.faults.update
      else d.defaultRole in d.roles && !login.faults.create && !login.faults.defaultLookup
           && !login.faults.defaultAssign
    ensures
      var f, claim := login.faults, login.claim;
      var held := if login.subject in a.users then RolesOf(d, a, login.subject) else {d.defaultRole};
      role in RolesOf(d, AfterLogin(d, a, login), login.subject) <==>
      if claim == [] || f.roleList then role in held
      else if role in claim then
        || role in held
        || (role in d.roles && exists i | 0 <= i < |claim| :: claim[i] == role && i !in f.lookups && i !in f.assigns)
      else role in held && role in f.removals
  {
    LoginIsLocal(d, a, login);
    var held := if login.subject in a.users then RolesOf(d, a, login.subject) else {d.defaultRole};
    assert RolesOf(d, AfterLogin(d, a, login), login.subject) == ClaimedRoles(d, held, login);
    assert Reached(login.claim, role, login.faults, |login.claim|) <==>
      exists i | 0 <= i < |login.claim| ::
        login.claim[i] == role && i !in login.faults.lookups && i !in login.faults.assigns;
  }

  // ---------- Runs of logins ----------

  /** The tables after a run of logins of anybody; None when a generated identifier was taken. */
  ghost function AfterLogins(d: Directory, a: Accounts, run: seq<Login>): Option<Accounts>
  {
    if run == [] then Some(a) else
      var before, login := AfterLogins(d, a, run[..|run| - 1]), run[|run| - 1];
      if before.Some? && Possible(before.value, login) then Some(AfterLogin(d, before.value, login)) else None
  }

  /** Runs start from empty tables, where everybody can log in; they go on with any subject known or identifier new. */
  lemma {:induction false} LoginsCanHappen(d: Directory, run: seq<Login>, next: Login)
    requires forall m, n | m in d.roles && n in d.roles && d.roles[m] == d.roles[n] :: m == n
    requires AfterLogins(d, Accounts(map[], {}), run).Some?
    requires
      var users := AfterLogins(d, Accounts(map[], {}), run).value.users;
      next.subject in users || forall s | s in users :: users[s].id != next.newId
    ensures Consistent(d, AfterLogins(d, Accounts(map[], {}), run).value)
    ensures AfterLogins(d, Accounts(map[], {}), run + [next]).Some?
  {
    LoginsKeepConsistent(d, Accounts(map[], {}), run);
    assert (run + [next])[..|run|] == run;
  }

  lemma {:induction false} LoginsKeepConsistent(d: Directory, a: Accounts, run: seq<Login>)
    requires Consistent(d, a) && AfterLogins(d, a, run).Some?
    ensures Consistent(d, AfterLogins(d, a, run).value)
  {
    if run != [] {
      LoginsKeepConsistent(d, a, run[..|run| - 1]);
      LoginIsLocal(d, AfterLogins(d, a, run[..|run| - 1]).value, run[|run| - 1]);
    }
  }

  /** Logins without a claim never change an existing user's roles, however many and whoever else logs in. */
  lemma {:induction false} EmptyClaimsChangeNoRoles(d: Directory, a: Accounts, run: seq<Login>, subject: string)
    requires Consistent(d, a) && subject in a.users
    requires AfterLogins(d, a, run).Some? && forall l | l in run && l.subject == subject :: l.claim == []
    ensures
      var later := AfterLogins(d, a, run).value;
      && Consistent(d, later) && subject in later.users
      && later.users[subject].isActive == a.users[subject].isActive
      && RolesOf(d, later, subject) == RolesOf(d, a, subject)
  {
    if run != [] {
      var earlier, login := run[..|run| - 1], run[|run| - 1];
      EmptyClaimsChangeNoRoles(d, a, earlier, subject);
      LoginIsLocal(d, AfterLogins(d, a, earlier).value, login);
    }
  }

  /**
   * The last claim that went through decides: after it, and any number of logins without one, a user holds
   * exactly the claimed roles that exist; the default role too only if it is claimed.
   */
  lemma {:induction false} LastClaimDecides(d: Directory, a: Accounts, login: Login, rest: seq<Login>)
    requires Consistent(d, a) && Possible(a, login)
    requires login.claim != [] && Completes(d, a, login)
    requires login.faults.lookups == {} && login.faults.assigns == {} && login.faults.removals == {}
    requires AfterLogins(d, AfterLogin(d, a, login), rest).Some?
    requires forall l | l in rest && l.subject == login.subject :: l.claim == []
    ensures
      RolesOf(d, AfterLogins(d, AfterLogin(d, a, login), rest).value, login.subject)
      == Elements(login.claim) * d.roles.Keys
  {
    LoginIsLocal(d, a, login);
    SyncIsReplacement(d.roles.Keys, RolesOf(d, a, login.subject), login.claim, login.faults);
    if login.subject !in a.users {
      SyncIsReplacement(d.roles.Keys, {d.defaultRole}, login.claim, login.faults);
    }
    EmptyClaimsChangeNoRoles(d, AfterLogin(d, a, login), rest, login.subject);
  }

  /**
   * A first login ends with the default role, as promised for every new account, if and only if assigning it
   * worked and the claim, when there is one, does not take it away again.
   */
  lemma {:induction false} FirstLoginHoldsDefaultExactly(d: Directory, a: Accounts, login: Login)
    requires Consistent(d, a) && login.subject !in a.users && Fresh(a, login.newId)
    ensures
      var f := login.faults;
      d.defaultRole in RolesOf(d, AfterLogin(d, a, login), login.subject) <==>
      && !f.find && !f.create && !f.defaultLookup && d.defaultRole in d.roles && !f.defaultAssign
      && (login.claim == [] || f.roleList || d.defaultRole in login.claim || d.defaultRole in f.removals)
  {
    LoginIsLocal(d, a, login);
  }

  /**
   * The promised default role is not retried: when the first login stops after creating the account, every
   * later login without a claim signs in with no role at all.
   */
  lemma {:induction false} DefaultRoleIsNotRetried(
    d: Directory, a: Accounts, first: Login, run: seq<Login>, next: Login)
    requires Consistent(d, a) && first.subject !in a.users && Fresh(a, first.newId)
    requires !first.faults.find && !first.faults.create
    requires first.faults.defaultLookup || d.defaultRole !in d.roles || first.faults.defaultAssign
    requires AfterLogins(d, AfterLogin(d, a, first), run).Some?
    requires forall l | l in run && l.subject == first.subject :: l.claim == []
    requires next.subject == first.subject && next.claim == [] && next.faults == NONE_FAIL
    ensures
      var later := AfterLogins(d, AfterLogin(d, a, first), run).value;
      && !Completes(d, a, first)
      && Completes(d, later, next)
      && RolesOf(d, AfterLogin(d, later, next), first.subject) == {}
  {
    LoginIsLocal(d, a, first);
    EmptyClaimsChangeNoRoles(d, AfterLogin(d, a, first), run, first.subject);
    LoginIsLocal(d, AfterLogins(d, AfterLogin(d, a, first), run).value, next);
  }
}

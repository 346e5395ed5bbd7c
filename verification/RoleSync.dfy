/**
 * Accounts and roles at login: SyncUser and syncRoles (internal/auth/oidc.go) on the user, role and
 * assignment tables (internal/store/user.go).
 */
module RoleSync {
  import opened Types

  // ---------- Tables and logins ----------

  datatype User = User(id: string, email: string, name: string, isActive: bool)

  datatype Role = Role(id: string, name: string)

  /** users: by subject. grants: rows (user id, role id) of the join table. */
  datatype Accounts = Accounts(users: map<string, User>, grants: set<(string, string)>)

  /** roles: name to id. */
  datatype Directory = Directory(roles: map<string, string>, defaultRole: string)

  /**
   * The store calls that fail during one login. Failing lookups and assignments of the claim are named by
   * the position in the claim, failing removals by the role's name.
   */
  datatype Faults = Faults(
    find: bool, update: bool, create: bool, defaultLookup: bool, defaultAssign: bool, roleList: bool, readBack: bool,
    lookups: set<nat>, assigns: set<nat>, removals: set<string>)

  const NONE_FAIL := Faults(false, false, false, false, false, false, false, {}, {}, {})

  /** newId: the identifier CreateUser generates if the subject turns out to be new. */
  datatype Login = Login(
    subject: string, email: string, name: string, claim: seq<string>, newId: string, faults: Faults)

  datatype Outcome = Rejected | Failed | SignedIn(user: User, roles: set<string>)

  /** Role ids are a primary key. */
  ghost predicate DistinctIds(roles: map<string, string>)
  {
    forall m, n | m in roles && n in roles && roles[m] == roles[n] :: m == n
  }

  /** User ids are a primary key, and assignments refer to users and roles that exist. */
  ghost predicate Consistent(d: Directory, a: Accounts)
  {
    && DistinctIds(d.roles)
    && (forall s, t | s in a.users && t in a.users && a.users[s].id == a.users[t].id :: s == t)
    && (forall p | p in a.grants :: p.1 in d.roles.Values && exists s :: s in a.users && a.users[s].id == p.0)
  }

  /** A generated identifier is nobody's. */
  ghost predicate Fresh(a: Accounts, id: string)
  {
    forall s | s in a.users :: a.users[s].id != id
  }

  // ---------- What a login does to the tables ----------

  /** The names of the roles a user holds. */
  function Names(roles: map<string, string>, grants: set<(string, string)>, user: string): set<string>
  {
    set n | n in roles && (user, roles[n]) in grants
  }

  /** The role is claimed at a position below bound where looking it up and assigning it works. */
  ghost predicate Reached(claim: seq<string>, name: string, f: Faults, bound: nat)
  {
    exists i | 0 <= i < |claim| :: i < bound && claim[i] == name && i !in f.lookups && i !in f.assigns
  }

  ghost function Granted(known: set<string>, held: set<string>, claim: seq<string>, f: Faults, bound: nat): set<string>
  {
    set n | n in known && n !in held && Reached(claim, n, f, bound)
  }

  function Revoked(held: set<string>, claim: seq<string>, f: Faults): set<string>
  {
    set n | n in held && n !in claim && n !in f.removals
  }

  function Rows(roles: map<string, string>, user: string, names: set<string>): set<(string, string)>
    requires names <= roles.Keys
  {
    set n | n in names :: (user, roles[n])
  }

  /** The roles held after the sync: what could be granted is added, what could be revoked is gone. */
  ghost function Synced(known: set<string>, held: set<string>, claim: seq<string>, f: Faults): set<string>
  {
    held + Granted(known, held, claim, f, |claim|) - Revoked(held, claim, f)
  }

  /** The assignments after syncRoles could read the user's roles: other users' rows stay. */
  ghost function AfterSync(
    roles: map<string, string>, grants: set<(string, string)>, user: string, claim: seq<string>, f: Faults)
    : set<(string, string)>
  {
    var held := Names(roles, grants, user);
    var granted, revoked := Granted(roles.Keys, held, claim, f, |claim|), Revoked(held, claim, f);
    grants + Rows(roles, user, granted) - Rows(roles, user, revoked)
  }

  /** syncRoles runs only for a claim that is not empty, and gives up when it cannot read the user's roles. */
  ghost function ClaimApplied(d: Directory, a: Accounts, user: string, login: Login): Accounts
  {
    if login.claim == [] || login.faults.roleList then a
    else a.(grants := AfterSync(d.roles, a.grants, user, login.claim, login.faults))
  }

  ghost function Registered(d: Directory, a: Accounts, login: Login): Accounts
  {
    var created := a.(users := a.users[login.subject := User(login.newId, login.email, login.name, true)]);
    if login.faults.defaultLookup || d.defaultRole !in d.roles || login.faults.defaultAssign then created
    else
      var granted := created.(grants := created.grants + {(login.newId, d.roles[d.defaultRole])});
      ClaimApplied(d, granted, login.newId, login)
  }

  ghost function Refreshed(d: Directory, a: Accounts, login: Login): Accounts
    requires login.subject in a.users
  {
    var user := a.users[login.subject];
    var updated := a.(users := a.users[login.subject := user.(email := login.email, name := login.name)]);
    ClaimApplied(d, updated, user.id, login)
  }

  /** The tables after a login, failing calls included. */
  ghost function AfterLogin(d: Directory, a: Accounts, login: Login): Accounts
  {
    if login.faults.find then a
    else if login.subject in a.users then
      if !a.users[login.subject].isActive || login.faults.update then a else Refreshed(d, a, login)
    else if login.faults.create then a
    else Registered(d, a, login)
  }

  /** The account is created and gets the default role. */
  predicate DefaultWorks(d: Directory, login: Login)
  {
    && !login.faults.create && !login.faults.defaultLookup && !login.faults.defaultAssign
    && d.defaultRole in d.roles
  }

  /** No call fails that stops the login; what fails inside syncRoles after reading the roles does not. */
  ghost predicate Completes(d: Directory, a: Accounts, login: Login)
  {
    && !login.faults.find && !login.faults.readBack
    && (if login.subject in a.users then a.users[login.subject].isActive && !login.faults.update
        else DefaultWorks(d, login))
    && (login.claim == [] || !login.faults.roleList)
  }

  // ---------- The store ----------

  class UserStore {
    var users: map<string, User>
    var grants: set<(string, string)>
    const roles: map<string, string>

    constructor (roles: map<string, string>)
      ensures users == map[] && grants == {} && this.roles == roles
    {
      users, grants := map[], {};
      this.roles := roles;
    }

    function Tables(): Accounts
      reads this
    {
      Accounts(users, grants)
    }

    method CreateUser(subject: string, user: User, fails: bool) returns (ok: bool)
      requires subject !in users && Fresh(Tables(), user.id)
      modifies this`users
      ensures ok == !fails
      ensures users == if ok then old(users)[subject := user] else old(users)
    {
      ok := !fails;
      if ok {
        users := users[subject := user];
      }
    }

    method UpdateUser(subject: string, email: string, name: string, fails: bool) returns (ok: bool)
      requires subject in users
      modifies this`users
      ensures ok == !fails
      ensures users == if ok then old(users)[subject := old(users)[subject].(email := email, name := name)]
        else old(users)
    {
      ok := !fails;
      if ok {
        users := users[subject := users[subject].(email := email, name := name)];
      }
    }

    method AssignRole(user: string, roleId: string, fails: bool) returns (ok: bool)
      modifies this`grants
      ensures ok == !fails
      ensures grants == if ok then old(grants) + {(user, roleId)} else old(grants)
    {
      ok := !fails;
      if ok {
        grants := grants + {(user, roleId)};
      }
    }

    method RemoveRole(user: string, roleId: string, fails: bool) returns (ok: bool)
      modifies this`grants
      ensures ok == !fails
      ensures grants == if ok then old(grants) - {(user, roleId)} else old(grants)
    {
      ok := !fails;
      if ok {
        grants := grants - {(user, roleId)};
      }
    }

    /** The join of the user's assignments with the roles; each role once, in an unspecified order. */
    method GetUserRoles(user: string) returns (list: seq<Role>)
      ensures forall r | r in list :: r.name in roles && roles[r.name] == r.id && (user, r.id) in grants
      ensures forall n | n in roles && (user, roles[n]) in grants :: Role(roles[n], n) in list
    {
      list := [];
      var todo := roles.Keys;
      while todo != {}
        invariant todo <= roles.Keys
        invariant forall r | r in list :: r.name in Names(roles, grants, user) && roles[r.name] == r.id
        invariant forall n | n in Names(roles, grants, user) :: n in todo || Role(roles[n], n) in list
        decreases |todo|
      {
        var n :| n in todo;
        todo := todo - {n};
        if (user, roles[n]) in grants {
          list := list + [Role(roles[n], n)];
        }
      }
    }
  }

  lemma ReachedStep(claim: seq<string>, f: Faults, i: nat)
    requires i < |claim|
    ensures forall n :: Reached(claim, n, f, i + 1) <==>
      Reached(claim, n, f, i) || (n == claim[i] && i !in f.lookups && i !in f.assigns)
  {
    forall n ensures Reached(claim, n, f, i + 1) <==>
      Reached(claim, n, f, i) || (n == claim[i] && i !in f.lookups && i !in f.assigns)
    {
      if Reached(claim, n, f, i + 1) {
        var k :| 0 <= k < |claim| && k < i + 1 && claim[k] == n && k !in f.lookups && k !in f.assigns;
        assert k < i ==> Reached(claim, n, f, i);
      }
    }
  }

  /** One turn of the adding loop. */
  lemma {:induction false} GrantedStep(known: set<string>, held: set<string>, claim: seq<string>, f: Faults, i: nat)
    requires i < |claim|
    ensures Granted(known, held, claim, f, i + 1) == Granted(known, held, claim, f, i) +
      (if claim[i] !in held && i !in f.lookups && claim[i] in known && i !in f.assigns then {claim[i]} else {})
  {
    ReachedStep(claim, f, i);
  }

  lemma {:induction false} RowsAdd(roles: map<string, string>, user: string, names: set<string>, n: string)
    requires names <= roles.Keys && n in roles
    ensures Rows(roles, user, names + {n}) == Rows(roles, user, names) + {(user, roles[n])}
  {
  }

  // ---------- The service ----------

  class OidcService {
    const store: UserStore
    const defaultRole: string

    constructor (store: UserStore, defaultRole: string)
      ensures this.store == store && this.defaultRole == defaultRole
    {
      this.store := store;
      this.defaultRole := defaultRole;
    }

    /** The first lookup map of syncRoles: name to id of the roles the user holds. */
    method CurrentByName(user: string) returns (current: map<string, string>)
      ensures current.Keys == Names(store.roles, store.grants, user)
      ensures forall n | n in current :: current[n] == store.roles[n]
    {
      var list := store.GetUserRoles(user);
      current := map[];
      for i := 0 to |list|
        invariant forall r | r in list[..i] :: r.name in current
        invariant forall n | n in current :: n in Names(store.roles, store.grants, user) && current[n] == store.roles[n]
      {
        current := current[list[i].name := list[i].id];
      }
      forall n | n in Names(store.roles, store.grants, user) ensures n in current {
        assert Role(store.roles[n], n) in list[..|list|];
      }
    }

    method AddMissing(user: string, claim: seq<string>, current: map<string, string>, f: Faults)
      modifies store`grants
      ensures store.grants ==
        old(store.grants) + Rows(store.roles, user, Granted(store.roles.Keys, current.Keys, claim, f, |claim|))
    {
      ghost var granted: set<string> := {};
      for i := 0 to |claim|
        invariant granted == Granted(store.roles.Keys, current.Keys, claim, f, i)
        invariant store.grants == old(store.grants) + Rows(store.roles, user, granted)
      {
        GrantedStep(store.roles.Keys, current.Keys, claim, f, i);
        if claim[i] in current {
          continue;
        }
        if i in f.lookups || claim[i] !in store.roles {
          continue;
        }
        var ok := store.AssignRole(user, store.roles[claim[i]], i in f.assigns);
        if ok {
          RowsAdd(store.roles, user, granted, claim[i]);
          granted := granted + {claim[i]};
        }
      }
    }

    /** The removing loop visits a Go map, whose order is arbitrary. */
    method RemoveStale(user: string, claim: seq<string>, current: map<string, string>, f: Faults)
      requires current.Keys <= store.roles.Keys && forall n | n in current :: current[n] == store.roles[n]
      modifies store`grants
      ensures store.grants == old(store.grants) - Rows(store.roles, user, Revoked(current.Keys, claim, f))
    {
      var desired: set<string> := {};
      for i := 0 to |claim|
        invariant forall n :: n in desired <==> n in claim[..i]
        invariant store.grants == old(store.grants)
      {
        desired := desired + {claim[i]};
      }
      assert claim[..|claim|] == claim;
      var todo := current.Keys;
      ghost var revoked: set<string> := {};
      while todo != {}
        invariant todo <= current.Keys && revoked <= current.Keys
        invariant revoked == Revoked(current.Keys - todo, claim, f)
        invariant store.grants == old(store.grants) - Rows(store.roles, user, revoked)
        decreases |todo|
      {
        var n :| n in todo;
        todo := todo - {n};
        if n in desired {
          continue;
        }
        var ok := store.RemoveRole(user, current[n], n in f.removals);
        if ok {
          RowsAdd(store.roles, user, revoked, n);
          revoked := revoked + {n};
        }
      }
      assert current.Keys - todo == current.Keys;
    }

    method SyncRoles(user: string, claim: seq<string>, f: Faults) returns (ok: bool)
      modifies store`grants
      ensures ok == !f.roleList
      ensures store.grants ==
        if ok then AfterSync(store.roles, old(store.grants), user, claim, f) else old(store.grants)
    {
      ok := !f.roleList;
      if ok {
        var current := CurrentByName(user);
        AddMissing(user, claim, current, f);
        RemoveStale(user, claim, current, f);
      }
    }

    method Refresh(login: Login) returns (outcome: Outcome)
      requires login.subject in store.users && store.users[login.subject].isActive
      requires !login.faults.find
      modifies store
      ensures store.Tables() == AfterLogin(Directory(store.roles, defaultRole), old(store.Tables()), login)
      ensures outcome == if Completes(Directory(store.roles, defaultRole), old(store.Tables()), login)
                         then SignedInAs(login.subject) else Failed
    {
      var user := store.users[login.subject].id;
      var ok := store.UpdateUser(login.subject, login.email, login.name, login.faults.update);
      if ok && login.claim != [] {
        ok := SyncRoles(user, login.claim, login.faults);
      }
      outcome := if ok && !login.faults.readBack then SignedInAs(login.subject) else Failed;
    }

    method Register(login: Login) returns (outcome: Outcome)
      requires login.subject !in store.users && Fresh(store.Tables(), login.newId)
      requires !login.faults.find
      modifies store
      ensures store.Tables() == AfterLogin(Directory(store.roles, defaultRole), old(store.Tables()), login)
      ensures outcome == if Completes(Directory(store.roles, defaultRole), old(store.Tables()), login)
                         then SignedInAs(login.subject) else Failed
    {
      var user := User(login.newId, login.email, login.name, true);
      var ok := store.CreateUser(login.subject, user, login.faults.create);
      if ok {
        ok := !login.faults.defaultLookup && defaultRole in store.roles;
        if ok {
          ok := store.AssignRole(login.newId, store.roles[defaultRole], login.faults.defaultAssign);
          if ok && login.claim != [] {
            ok := SyncRoles(login.newId, login.claim, login.faults);
          }
        }
      }
      outcome := if ok && !login.faults.readBack then SignedInAs(login.subject) else Failed;
    }

    /** What GetUserByID reads back. */
    function SignedInAs(subject: string): Outcome
      requires subject in store.users
      reads store
    {
      SignedIn(store.users[subject], Names(store.roles, store.grants, store.users[subject].id))
    }

    /**
     * A disabled user is rejected and nothing changes; every other login succeeds unless one of the calls
     * outside the loops of syncRoles fails.
     */
    method SyncUser(login: Login) returns (outcome: Outcome)
      requires login.subject in store.users || Fresh(store.Tables(), login.newId)
      modifies store
      ensures store.Tables() == AfterLogin(Directory(store.roles, defaultRole), old(store.Tables()), login)
      ensures outcome.Rejected? <==>
        !login.faults.find && login.subject in old(store.users) && !old(store.users)[login.subject].isActive
      ensures outcome.SignedIn? <==> Completes(Directory(store.roles, defaultRole), old(store.Tables()), login)
      ensures outcome.SignedIn? <==>
        && !login.faults.find && !login.faults.readBack && (login.claim == [] || !login.faults.roleList)
        && if login.subject in old(store.users) then old(store.users)[login.subject].isActive && !login.faults.update
           else defaultRole in store.roles && !login.faults.create && !login.faults.defaultLookup
                && !login.faults.defaultAssign
      ensures outcome.SignedIn? ==>
        && login.subject in store.users && outcome.user == store.users[login.subject]
        && forall n :: n in outcome.roles <==> n in store.roles && (outcome.user.id, store.roles[n]) in store.grants
    {
      if login.faults.find {
        outcome := Failed;
      } else if login.subject !in store.users {
        outcome := Register(login);
      } else if !store.users[login.subject].isActive {
        outcome := Rejected;
      } else {
        outcome := Refresh(login);
      }
    }
  }
}

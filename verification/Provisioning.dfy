/** Creating an administrator: the five statements of one transaction, and what they leave in the tables. */
module Provisioning {
  import opened Common
  import opened Directory

  // ---------------------------------------------------------------- constraints of the schema

  ghost predicate KnownUser(t: Tables, id: int) { exists u :: u in t.users && u.id == id }

  ghost predicate KnownRole(t: Tables, id: int) { exists r :: r in t.roles && r.id == id }

  ghost predicate KnownPermission(t: Tables, id: int) { exists p :: p in t.permissions && p.id == id }

  ghost predicate KeysUnique(t: Tables) {
    && (forall i, j :: 0 <= i < j < |t.users| ==>
        t.users[i].id != t.users[j].id && t.users[i].email != t.users[j].email)
    && (forall i, j :: 0 <= i < j < |t.roles| ==> t.roles[i].id != t.roles[j].id && t.roles[i].slug != t.roles[j].slug)
    && (forall i, j :: 0 <= i < j < |t.permissions| ==>
          t.permissions[i].id != t.permissions[j].id && t.permissions[i].name != t.permissions[j].name)
    && NoDuplicates(t.userRoles) && NoDuplicates(t.rolePermissions)
  }

  ghost predicate ForeignKeysHold(t: Tables) {
    && (forall ur :: ur in t.userRoles ==> KnownUser(t, ur.userId) && KnownRole(t, ur.roleId))
    && (forall rp :: rp in t.rolePermissions ==> KnownRole(t, rp.roleId) && KnownPermission(t, rp.permissionId))
  }

  ghost predicate IdentitiesFresh(t: Tables, q: Sequences) {
    && (forall u :: u in t.users ==> u.id < q.nextUser)
    && (forall r :: r in t.roles ==> r.id < q.nextRole)
    && (forall p :: p in t.permissions ==> p.id < q.nextPermission)
  }

  /** Primary keys, UNIQUE columns, foreign keys, and identity columns that have not reached their next value. */
  ghost predicate Valid(t: Tables, q: Sequences) {
    KeysUnique(t) && ForeignKeysHold(t) && IdentitiesFresh(t, q)
  }

  // ---------------------------------------------------------------- the statements

  function RoleID(roles: seq<RoleRow>, slug: string): (id: Option<int>)
    ensures id.None? ==> forall r :: r in roles ==> r.slug != slug
    ensures id.Some? ==> RoleRow(id.value, slug) in roles
  {
    if roles == [] then None
    else if roles[0].slug == slug then Some(roles[0].id)
    else RoleID(roles[1..], slug)
  }

  function PermissionID(permissions: seq<PermissionRow>, name: string): (id: Option<int>)
    ensures id.None? ==> forall p :: p in permissions ==> p.name != name
    ensures id.Some? ==> PermissionRow(id.value, name) in permissions
  {
    if permissions == [] then None
    else if permissions[0].name == name then Some(permissions[0].id)
    else PermissionID(permissions[1..], name)
  }

  /** INSERT INTO roles ... ON CONFLICT (slug) DO UPDATE ... RETURNING id */
  function UpsertRole(roles: seq<RoleRow>, next: int, slug: string): (seq<RoleRow>, int) {
    match RoleID(roles, slug)
    case Some(id) => (roles, id)
    case None => (roles + [RoleRow(next, slug)], next)
  }

  /** INSERT INTO permissions ... ON CONFLICT (name) DO UPDATE ... RETURNING id */
  function UpsertPermission(permissions: seq<PermissionRow>, next: int, name: string): (seq<PermissionRow>, int) {
    match PermissionID(permissions, name)
    case Some(id) => (permissions, id)
    case None => (permissions + [PermissionRow(next, name)], next)
  }

  /** INSERT ... ON CONFLICT DO NOTHING on a table whose only key is the whole row. */
  function AddOnce<T(==)>(rows: seq<T>, row: T): seq<T> {
    if row in rows then rows else rows + [row]
  }

  predicate EmailTaken(t: Tables, email: string) {
    exists u :: u in t.users && u.email == email
  }

  /** The whole transaction. When the email is taken the tables roll back, but the identity sequences have moved on. */
  function CreateAdmin(t: Tables, q: Sequences, email: string, passwordHash: string)
    : (Tables, Sequences, Result<User>)
  {
    var (roles, roleId) := UpsertRole(t.roles, q.nextRole, ADMIN_ROLE);
    var (permissions, permissionId) := UpsertPermission(t.permissions, q.nextPermission, ERROR_READ_GRANT);
    var q' := Sequences(q.nextUser + 1, q.nextRole + 1, q.nextPermission + 1);
    if EmailTaken(t, email) then (t, q', Failure(UserExists)) else
      var userId := q.nextUser;
      var t' := Tables(
        t.users + [UserRow(userId, email, passwordHash, true)],
        roles,
        permissions,
        AddOnce(t.userRoles, UserRole(userId, roleId)),
        AddOnce(t.rolePermissions, RolePermission(roleId, permissionId)));
      (t', q', Success(User(userId, email, [ADMIN_ROLE], [ERROR_READ_GRANT])))
  }

  // ---------------------------------------------------------------- properties

  lemma {:induction false} CreateAdminForeignKeys(t: Tables, q: Sequences, email: string, passwordHash: string)
    requires Valid(t, q) && !EmailTaken(t, email)
    ensures ForeignKeysHold(CreateAdmin(t, q, email, passwordHash).0)
  {
    var t' := CreateAdmin(t, q, email, passwordHash).0;
    assert t'.users[|t.users|].id == q.nextUser;
    forall ur | ur in t'.userRoles ensures KnownUser(t', ur.userId) && KnownRole(t', ur.roleId) {
      if ur in t.userRoles {
        var u :| u in t.users && u.id == ur.userId;
        assert u in t'.users;
        var ro :| ro in t.roles && ro.id == ur.roleId;
        assert ro in t'.roles;
      } else {
        assert UserRow(q.nextUser, email, passwordHash, true) in t'.users;
      }
    }
  }

  lemma {:induction false} CreateAdminKeys(t: Tables, q: Sequences, email: string, passwordHash: string)
    requires KeysUnique(t) && IdentitiesFresh(t, q) && !EmailTaken(t, email)
    ensures KeysUnique(CreateAdmin(t, q, email, passwordHash).0)
  {
  }

  lemma {:induction false} CreateAdminIdentities(t: Tables, q: Sequences, email: string, passwordHash: string)
    requires IdentitiesFresh(t, q)
    ensures IdentitiesFresh(CreateAdmin(t, q, email, passwordHash).0, CreateAdmin(t, q, email, passwordHash).1)
  {
  }

  /** Every key and foreign key survives, whether the administrator was created or not. */
  lemma {:induction false} CreateAdminKeepsValid(t: Tables, q: Sequences, email: string, passwordHash: string)
    requires Valid(t, q)
    ensures var (t', q', _) := CreateAdmin(t, q, email, passwordHash);
            Valid(t', q')
  {
    hide KeysUnique;
    hide ForeignKeysHold;
    hide IdentitiesFresh;
    CreateAdminIdentities(t, q, email, passwordHash);
    if EmailTaken(t, email) {
      assert CreateAdmin(t, q, email, passwordHash).0 == t;
    } else {
      hide CreateAdmin;
      CreateAdminKeys(t, q, email, passwordHash);
      CreateAdminForeignKeys(t, q, email, passwordHash);
    }
  }

  /** CreateAdmin is refused exactly when the email is taken, and then no table changes. */
  lemma {:induction false} UserExistsChangesNothing(t: Tables, q: Sequences, email: string, passwordHash: string)
    ensures var (t', q', r) := CreateAdmin(t, q, email, passwordHash);
            && (r.Failure? <==> exists u :: u in t.users && u.email == email)
            && (r.Failure? ==> r.error == UserExists && t' == t)
  {
  }

  /** An e-mail is provisioned at most once: a creation is refused exactly when the lookup by that e-mail finds a user,
      a refusal changes no table, and after any creation a further one is refused, whatever password it brings. */
  lemma {:induction false} CreatedOnce(t: Tables, q: Sequences, email: string, passwordHash: string, other: string)
    ensures var (t', q', r) := CreateAdmin(t, q, email, passwordHash);
            && (r.Failure? <==> FindUser(t, email).Some?) && (r.Failure? ==> r.error == UserExists && t' == t)
            && FindUser(t', email).Some?
            && CreateAdmin(t', q', email, other).2 == Failure(UserExists) && CreateAdmin(t', q', email, other).0 == t'
  {
    var (t', q', r) := CreateAdmin(t, q, email, passwordHash);
    QueryExact(t, ByEmail(email));
    QueryExact(t', ByEmail(email));
    UserExistsChangesNothing(t, q, email, passwordHash);
    if r.Success? {
      var u := UserRow(q.nextUser, email, passwordHash, true);
      assert t'.users[|t.users|] == u;
      assert u in t'.users && ByEmail(email)(u);
    }
    UserExistsChangesNothing(t', q', email, other);
  }

  /** For every user who was there before, no role changes, and the only permission that can appear is
      errors:read, for the holders of internal_admin. */
  lemma {:induction false} CreateAdminFrame(t: Tables, q: Sequences, email: string, passwordHash: string, id: int)
    requires Valid(t, q) && KnownUser(t, id) && !EmailTaken(t, email)
    ensures var t' := CreateAdmin(t, q, email, passwordHash).0;
            && (forall slug :: HasRole(t', id, slug) <==> HasRole(t, id, slug))
            && (forall name :: HasPermission(t', id, name) <==>
                               HasPermission(t, id, name) || (name == ERROR_READ_GRANT && HasRole(t, id, ADMIN_ROLE)))
  {
    var t' := CreateAdmin(t, q, email, passwordHash).0;
    forall slug ensures HasRole(t', id, slug) <==> HasRole(t, id, slug) {
      OldRolesKept(t, q, email, passwordHash, id, slug);
    }
    forall name ensures HasPermission(t', id, name) <==>
                        HasPermission(t, id, name) || (name == ERROR_READ_GRANT && HasRole(t, id, ADMIN_ROLE)) {
      OldPermissionsKept(t, q, email, passwordHash, id, name);
    }
  }

  lemma {:induction false} OldRolesKept(t: Tables, q: Sequences, email: string, passwordHash: string, id: int,
                                        slug: string)
    requires Valid(t, q) && KnownUser(t, id) && !EmailTaken(t, email)
    ensures HasRole(CreateAdmin(t, q, email, passwordHash).0, id, slug) <==> HasRole(t, id, slug)
  {
    var t' := CreateAdmin(t, q, email, passwordHash).0;
    if HasRole(t', id, slug) {
      var ur, r :| Assigned(t', id, ur, r) && r.slug == slug;
      OldAssigned(t, q, email, passwordHash, id, ur, r);
    }
    if HasRole(t, id, slug) {
      var ur, r :| Assigned(t, id, ur, r) && r.slug == slug;
      assert Assigned(t', id, ur, r);
    }
  }

  lemma {:induction false} OldPermissionsKept(t: Tables, q: Sequences, email: string, passwordHash: string, id: int,
                                              name: string)
    requires Valid(t, q) && KnownUser(t, id) && !EmailTaken(t, email)
    ensures HasPermission(CreateAdmin(t, q, email, passwordHash).0, id, name) <==>
            HasPermission(t, id, name) || (name == ERROR_READ_GRANT && HasRole(t, id, ADMIN_ROLE))
  {
    var t' := CreateAdmin(t, q, email, passwordHash).0;
    if HasPermission(t', id, name) {
      OnlyAdminGains(t, q, email, passwordHash, id, name);
    }
    if HasPermission(t, id, name) {
      var ur, r, rp, p :| Assigned(t, id, ur, r) && Granted(t, r, rp, p) && p.name == name;
      assert Assigned(t', id, ur, r) && Granted(t', r, rp, p);
    }
    if name == ERROR_READ_GRANT && HasRole(t, id, ADMIN_ROLE) {
      var ur, r :| Assigned(t, id, ur, r) && r.slug == ADMIN_ROLE;
      var rp, p := AdminGrant(t, q, email, passwordHash, r);
      assert Assigned(t', id, ur, r);
    }
  }

  lemma {:induction false} OldAssigned(t: Tables, q: Sequences, email: string, passwordHash: string, id: int,
                                       ur: UserRole, r: RoleRow)
    requires Valid(t, q) && KnownUser(t, id) && !EmailTaken(t, email)
    requires Assigned(CreateAdmin(t, q, email, passwordHash).0, id, ur, r)
    ensures Assigned(t, id, ur, r)
  {
    assert ur in t.userRoles;
  }

  lemma {:induction false} OldGranted(t: Tables, q: Sequences, email: string, passwordHash: string, r: RoleRow,
                                      rp: RolePermission, p: PermissionRow)
    requires Valid(t, q) && !EmailTaken(t, email) && r in t.roles
    requires Granted(CreateAdmin(t, q, email, passwordHash).0, r, rp, p)
    ensures Granted(t, r, rp, p) || (p.name == ERROR_READ_GRANT && r.slug == ADMIN_ROLE)
  {
  }

  lemma {:induction false} OnlyAdminGains(t: Tables, q: Sequences, email: string, passwordHash: string, id: int,
                                          name: string)
    requires Valid(t, q) && KnownUser(t, id) && !EmailTaken(t, email)
    requires HasPermission(CreateAdmin(t, q, email, passwordHash).0, id, name)
    ensures HasPermission(t, id, name) || (name == ERROR_READ_GRANT && HasRole(t, id, ADMIN_ROLE))
  {
    hide CreateAdmin;
    hide Valid;
    var t' := CreateAdmin(t, q, email, passwordHash).0;
    var ur, r, rp, p :| Assigned(t', id, ur, r) && Granted(t', r, rp, p) && p.name == name;
    OldAssigned(t, q, email, passwordHash, id, ur, r);
    OldGranted(t, q, email, passwordHash, r, rp, p);
  }

  /** After a creation, the row of internal_admin carries errors:read. */
  lemma {:induction false} AdminGrant(t: Tables, q: Sequences, email: string, passwordHash: string, r: RoleRow)
    returns (rp: RolePermission, p: PermissionRow)
    requires Valid(t, q) && !EmailTaken(t, email)
    requires r in CreateAdmin(t, q, email, passwordHash).0.roles && r.slug == ADMIN_ROLE
    ensures Granted(CreateAdmin(t, q, email, passwordHash).0, r, rp, p) && p.name == ERROR_READ_GRANT
    ensures r.id == UpsertRole(t.roles, q.nextRole, ADMIN_ROLE).1
  {
    CreateAdminKeepsValid(t, q, email, passwordHash);
    var (_, roleId) := UpsertRole(t.roles, q.nextRole, ADMIN_ROLE);
    var (permissions, permissionId) := UpsertPermission(t.permissions, q.nextPermission, ERROR_READ_GRANT);
    p := PermissionRow(permissionId, ERROR_READ_GRANT);
    assert permissions[|permissions| - 1] in permissions;
    rp := RolePermission(roleId, permissionId);
    assert RoleRow(roleId, ADMIN_ROLE) in CreateAdmin(t, q, email, passwordHash).0.roles;
  }

  /** The one assignment of the new administrator. */
  lemma {:induction false} NewAdminAssigned(t: Tables, q: Sequences, email: string, passwordHash: string, ur: UserRole,
                                            r: RoleRow)
    requires Valid(t, q) && !EmailTaken(t, email)
    ensures var roleId := UpsertRole(t.roles, q.nextRole, ADMIN_ROLE).1;
            Assigned(CreateAdmin(t, q, email, passwordHash).0, q.nextUser, ur, r) <==>
            ur == UserRole(q.nextUser, roleId) && r == RoleRow(roleId, ADMIN_ROLE)
  {
    var t' := CreateAdmin(t, q, email, passwordHash).0;
    var (roles, roleId) := UpsertRole(t.roles, q.nextRole, ADMIN_ROLE);
    CreateAdminKeepsValid(t, q, email, passwordHash);
    assert roles[|roles| - 1] in roles;
    assert RoleRow(roleId, ADMIN_ROLE) in t'.roles;
    assert UserRole(q.nextUser, roleId) !in t.userRoles;
    assert t'.userRoles == t.userRoles + [UserRole(q.nextUser, roleId)];
    assert t'.userRoles[|t.userRoles|] == UserRole(q.nextUser, roleId);
  }

  /** The new administrator has exactly the role internal_admin, and the permissions which that role carries. */
  lemma {:induction false} NewAdminAccess(t: Tables, q: Sequences, email: string, passwordHash: string, value: string)
    requires Valid(t, q) && !EmailTaken(t, email)
    ensures var t' := CreateAdmin(t, q, email, passwordHash).0;
            && (HasRole(t', q.nextUser, value) <==> value == ADMIN_ROLE)
            && (HasPermission(t', q.nextUser, value) <==>
                value == ERROR_READ_GRANT || RoleCarries(t, ADMIN_ROLE, value))
  {
    var t' := CreateAdmin(t, q, email, passwordHash).0;
    var roleId := UpsertRole(t.roles, q.nextRole, ADMIN_ROLE).1;
    var r := RoleRow(roleId, ADMIN_ROLE);
    forall ur, r' ensures Assigned(t', q.nextUser, ur, r') <==> ur == UserRole(q.nextUser, roleId) && r' == r {
      NewAdminAssigned(t, q, email, passwordHash, ur, r');
    }
    assert Assigned(t', q.nextUser, UserRole(q.nextUser, roleId), r);
    NewAdminPermission(t, q, email, passwordHash, value);
  }

  lemma {:induction false} NewAdminPermission(t: Tables, q: Sequences, email: string, passwordHash: string,
                                              value: string)
    requires Valid(t, q) && !EmailTaken(t, email)
    ensures var t' := CreateAdmin(t, q, email, passwordHash).0;
            HasPermission(t', q.nextUser, value) <==> value == ERROR_READ_GRANT || RoleCarries(t, ADMIN_ROLE, value)
  {
    var t' := CreateAdmin(t, q, email, passwordHash).0;
    var roleId := UpsertRole(t.roles, q.nextRole, ADMIN_ROLE).1;
    var r := RoleRow(roleId, ADMIN_ROLE);
    var ur := UserRole(q.nextUser, roleId);
    NewAdminAssigned(t, q, email, passwordHash, ur, r);
    if value == ERROR_READ_GRANT {
      var rp, p := AdminGrant(t, q, email, passwordHash, r);
      assert Assigned(t', q.nextUser, ur, r) && Granted(t', r, rp, p) && p.name == value;
    } else if RoleCarries(t, ADMIN_ROLE, value) {
      var r1, rp, p :| r1 in t.roles && r1.slug == ADMIN_ROLE && Granted(t, r1, rp, p) && p.name == value;
      assert Assigned(t', q.nextUser, ur, r) && Granted(t', r, rp, p) && p.name == value;
    } else if HasPermission(t', q.nextUser, value) {
      var ur1, r1, rp, p :| Assigned(t', q.nextUser, ur1, r1) && Granted(t', r1, rp, p) && p.name == value;
      NewAdminAssigned(t, q, email, passwordHash, ur1, r1);
      GrantIsOldOrNew(t, q, email, passwordHash, rp, p);
    }
  }

  /** A grant of internal_admin after the creation was there before, or is the grant of errors:read. */
  lemma {:induction false} GrantIsOldOrNew(t: Tables, q: Sequences, email: string, passwordHash: string,
                                           rp: RolePermission, p: PermissionRow)
    requires Valid(t, q) && !EmailTaken(t, email)
    requires var roleId := UpsertRole(t.roles, q.nextRole, ADMIN_ROLE).1;
             Granted(CreateAdmin(t, q, email, passwordHash).0, RoleRow(roleId, ADMIN_ROLE), rp, p)
    ensures p.name == ERROR_READ_GRANT || RoleCarries(t, ADMIN_ROLE, p.name)
  {
    var roleId := UpsertRole(t.roles, q.nextRole, ADMIN_ROLE).1;
    CreateAdminKeepsValid(t, q, email, passwordHash);
    if rp in t.rolePermissions {
      var r :| r in t.roles && r.id == rp.roleId;
      assert r == RoleRow(roleId, ADMIN_ROLE);
      assert Granted(t, r, rp, p);
    }
  }

  /** Some permission row of this role has this name. */
  ghost predicate RoleCarries(t: Tables, slug: string, name: string) {
    exists r, rp, p :: r in t.roles && r.slug == slug && Granted(t, r, rp, p) && p.name == name
  }

  lemma {:induction false} CreatedRowIsFound(t: Tables, q: Sequences, email: string, passwordHash: string)
    returns (s: StoredUser)
    requires Valid(t, q) && !EmailTaken(t, email)
    ensures var t' := CreateAdmin(t, q, email, passwordHash).0;
            FindUser(t', email) == Some(s) && Describes(t', UserRow(q.nextUser, email, passwordHash, true), s)
  {
    var t' := CreateAdmin(t, q, email, passwordHash).0;
    var row := UserRow(q.nextUser, email, passwordHash, true);
    assert t'.users[|t.users|] == row;
    QueryExact(t', ByEmail(email));
    assert row in t'.users && ByEmail(email)(row);
    s := FindUser(t', email).value;
    var u :| u in t'.users && u.email == email && Describes(t', u, s);
  }

  lemma {:induction false} CreatedAdminAccess(t: Tables, q: Sequences, email: string, passwordHash: string,
                                              s: StoredUser)
    requires Valid(t, q) && !EmailTaken(t, email)
    requires Describes(CreateAdmin(t, q, email, passwordHash).0, UserRow(q.nextUser, email, passwordHash, true), s)
    ensures s.user.roles == [ADMIN_ROLE] && ERROR_READ_GRANT in s.user.permissions
    ensures s.user.permissions == [ERROR_READ_GRANT] <==>
            forall name :: RoleCarries(t, ADMIN_ROLE, name) ==> name == ERROR_READ_GRANT
  {
    forall value ensures (value in s.user.roles <==> value == ADMIN_ROLE) &&
                         (value in s.user.permissions <==>
                          value == ERROR_READ_GRANT || RoleCarries(t, ADMIN_ROLE, value)) {
      NewAdminAccess(t, q, email, passwordHash, value);
    }
    OnlyElement(s.user.roles, ADMIN_ROLE);
    OnlyErrorsRead(t, s.user.permissions);
  }

  /** A created administrator is found by its email: under a new id, active, with the stored hash, with exactly the
      role internal_admin, and with errors:read. The permissions that CreateAdmin itself returns are those of that
      lookup exactly when internal_admin carried nothing but errors:read beforehand. */
  lemma {:induction false} CreatedAdminIsFound(t: Tables, q: Sequences, email: string, passwordHash: string)
    returns (s: StoredUser)
    requires Valid(t, q) && !EmailTaken(t, email)
    ensures FindUser(CreateAdmin(t, q, email, passwordHash).0, email) == Some(s)
    ensures s.user.email == email && s.passwordHash == passwordHash && s.active && !KnownUser(t, s.user.id)
    ensures s.user.roles == [ADMIN_ROLE] && ERROR_READ_GRANT in s.user.permissions
    ensures CreateAdmin(t, q, email, passwordHash).2.Success?
    ensures var returned := CreateAdmin(t, q, email, passwordHash).2.value;
            && returned.id == s.user.id && returned.email == email && returned.roles == s.user.roles
            && (returned.permissions == s.user.permissions <==>
                forall name :: RoleCarries(t, ADMIN_ROLE, name) ==> name == ERROR_READ_GRANT)
  {
    s := CreatedRowIsFound(t, q, email, passwordHash);
    CreatedAdminAccess(t, q, email, passwordHash, s);
  }

  /** A directory in which internal_admin already carries another permission. */
  const CUSTOMISED := Tables([], [RoleRow(1, ADMIN_ROLE)], [PermissionRow(1, "users:read")], [], [RolePermission(1, 1)])

  /** There the creation returns fewer permissions than the lookup of the created user finds. */
  lemma {:induction false} ReturnedPermissionsFallShort(t: Tables, email: string, passwordHash: string)
    returns (s: StoredUser)
    requires t == CUSTOMISED
    ensures var (t', _, r) := CreateAdmin(t, Sequences(1, 2, 2), email, passwordHash);
            && FindUser(t', email) == Some(s) && r.Success? && r.value.permissions != s.user.permissions
  {
    CustomisedIsValid(t);
    var granted := PermissionRow(1, "users:read");
    assert Granted(t, t.roles[0], t.rolePermissions[0], granted) && RoleCarries(t, ADMIN_ROLE, granted.name);
    s := CreatedAdminIsFound(t, Sequences(1, 2, 2), email, passwordHash);
  }

  lemma {:induction false} CustomisedIsValid(t: Tables)
    requires t == CUSTOMISED
    ensures Valid(t, Sequences(1, 2, 2))
  {
    assert t.roles[0] == RoleRow(1, ADMIN_ROLE) && t.permissions[0] == PermissionRow(1, "users:read");
    assert KnownRole(t, 1) && KnownPermission(t, 1);
  }

  lemma {:induction false} OnlyErrorsRead(t: Tables, names: seq<string>)
    requires NoDuplicates(names)
    requires forall name :: name in names <==> name == ERROR_READ_GRANT || RoleCarries(t, ADMIN_ROLE, name)
    ensures names == [ERROR_READ_GRANT] <==>
              forall name :: RoleCarries(t, ADMIN_ROLE, name) ==> name == ERROR_READ_GRANT
  {
    if forall name :: RoleCarries(t, ADMIN_ROLE, name) ==> name == ERROR_READ_GRANT {
      OnlyElement(names, ERROR_READ_GRANT);
    } else {
      var name :| RoleCarries(t, ADMIN_ROLE, name) && name != ERROR_READ_GRANT;
      assert name in names;
    }
  }

  lemma {:induction false} OnlyElement(s: seq<string>, x: string)
    requires x in s && forall y :: y in s ==> y == x
    ensures s == [x] || !NoDuplicates(s)
  {
    assert s[0] in s;
    if |s| > 1 {
      assert s[1] in s;
      assert s[0] == s[1];
    }
  }
}

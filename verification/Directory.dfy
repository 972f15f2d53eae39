/** The five directory tables, the lookup query that joins them, and the provisioning of administrators. */
module Directory {
  import opened Common

  datatype UserRow = UserRow(id: int, email: string, passwordHash: string, active: bool)
  datatype RoleRow = RoleRow(id: int, slug: string)
  datatype PermissionRow = PermissionRow(id: int, name: string)
  datatype UserRole = UserRole(userId: int, roleId: int)
  datatype RolePermission = RolePermission(roleId: int, permissionId: int)

  datatype Tables = Tables(
    users: seq<UserRow>,
    roles: seq<RoleRow>,
    permissions: seq<PermissionRow>,
    userRoles: seq<UserRole>,
    rolePermissions: seq<RolePermission>)

  /** The next identity value of each table. A rollback does not return values to a sequence. */
  datatype Sequences = Sequences(nextUser: int, nextRole: int, nextPermission: int)

  datatype User = User(id: int, email: string, roles: seq<string>, permissions: seq<string>)
  datatype StoredUser = StoredUser(user: User, passwordHash: string, active: bool)

  const ADMIN_ROLE := "internal_admin"
  const ERROR_READ_GRANT := "errors:read"

  // ---------------------------------------------------------------- joins

  function Matching<A, B>(a: A, right: seq<B>, on: (A, B) -> bool): seq<B> {
    if right == [] then [] else
      (if on(a, right[0]) then [right[0]] else []) + Matching(a, right[1..], on)
  }

  /** One row of the left table with its partners, or with a null partner when it has none. */
  function Extended<A, B>(a: A, partners: seq<B>): seq<(A, Option<B>)> {
    if partners == [] then [(a, None)]
    else seq(|partners|, i requires 0 <= i < |partners| => (a, Some(partners[i])))
  }

  function LeftJoin<A, B>(left: seq<A>, right: seq<B>, on: (A, B) -> bool): seq<(A, Option<B>)> {
    if left == [] then [] else
      Extended(left[0], Matching(left[0], right, on)) + LeftJoin(left[1..], right, on)
  }

  lemma {:induction false} MatchingMember<A, B>(a: A, right: seq<B>, on: (A, B) -> bool, b: B)
    ensures b in Matching(a, right, on) <==> b in right && on(a, b)
  {
    if right == [] {
    } else {
      MatchingMember(a, right[1..], on, b);
      assert right == [right[0]] + right[1..];
    }
  }

  /** A left row is joined with every partner, and with null exactly when it has no partner. */
  lemma {:induction false} LeftJoinMember<A, B>(left: seq<A>, right: seq<B>, on: (A, B) -> bool, a: A, b: Option<B>)
    ensures (a, b) in LeftJoin(left, right, on) <==>
            a in left && match b {
                           case Some(v) => v in right && on(a, v)
                           case None => forall v | v in right :: !on(a, v)
                         }
  {
    if left == [] {
    } else {
      LeftJoinMember(left[1..], right, on, a, b);
      assert left == [left[0]] + left[1..];
      var partners := Matching(left[0], right, on);
      forall v ensures v in partners <==> v in right && on(left[0], v) {
        MatchingMember(left[0], right, on, v);
      }
      var head := Extended(left[0], partners);
      if partners == [] {
        assert head == [(left[0], None)];
        assert (a, b) in head <==> a == left[0] && b == None;
      } else {
        assert partners[0] in partners;
        if b.Some? && b.value in partners {
          var i :| 0 <= i < |partners| && partners[i] == b.value;
          assert head[i] == (left[0], b);
        }
        assert (a, b) in head <==> a == left[0] && b.Some? && b.value in partners;
      }
    }
  }

  /** No left row is lost by a left join. */
  lemma {:induction false} LeftJoinKeeps<A, B>(left: seq<A>, right: seq<B>, on: (A, B) -> bool, a: A)
    returns (b: Option<B>)
    requires a in left
    ensures (a, b) in LeftJoin(left, right, on)
  {
    if v :| v in right && on(a, v) {
      b := Some(v);
    } else {
      b := None;
    }
    LeftJoinMember(left, right, on, a, b);
  }

  // ---------------------------------------------------------------- the lookup query

  type WithUserRole = (UserRow, Option<UserRole>)
  type WithRole = (WithUserRole, Option<RoleRow>)
  type WithRolePermission = (WithRole, Option<RolePermission>)
  type JoinRow = (WithRolePermission, Option<PermissionRow>)

  // The ON conditions; a null column on the left never satisfies one.

  predicate OnUserRole(u: UserRow, ur: UserRole) { ur.userId == u.id }

  predicate OnRole(a: WithUserRole, r: RoleRow) { a.1.Some? && r.id == a.1.value.roleId }

  predicate OnRolePermission(a: WithRole, rp: RolePermission) { a.1.Some? && rp.roleId == a.1.value.id }

  predicate OnPermission(a: WithRolePermission, p: PermissionRow) { a.1.Some? && p.id == a.1.value.permissionId }

  function JoinUserRoles(t: Tables): seq<WithUserRole> {
    LeftJoin(t.users, t.userRoles, OnUserRole)
  }

  function JoinRoles(t: Tables): seq<WithRole> {
    LeftJoin(JoinUserRoles(t), t.roles, OnRole)
  }

  function JoinRolePermissions(t: Tables): seq<WithRolePermission> {
    LeftJoin(JoinRoles(t), t.rolePermissions, OnRolePermission)
  }

  function JoinPermissions(t: Tables): seq<JoinRow> {
    LeftJoin(JoinRolePermissions(t), t.permissions, OnPermission)
  }

  function UserOf(row: JoinRow): UserRow { row.0.0.0.0 }

  function RoleOf(row: JoinRow): Option<RoleRow> { row.0.0.1 }

  function Where(rows: seq<JoinRow>, wanted: UserRow -> bool): seq<JoinRow> {
    if rows == [] then [] else
      (if wanted(UserOf(rows[0])) then [rows[0]] else []) + Where(rows[1..], wanted)
  }

  /** array_agg(DISTINCT r.slug) FILTER (WHERE r.slug IS NOT NULL), with '{}' for no rows. */
  function Slugs(group: seq<JoinRow>): seq<string> {
    if group == [] then [] else
      var rest := Slugs(group[..|group| - 1]);
      match RoleOf(group[|group| - 1]) {
        case Some(r) => if r.slug in rest then rest else rest + [r.slug]
        case None => rest
      }
  }

  /** array_agg(DISTINCT p.name) FILTER (WHERE p.name IS NOT NULL), with '{}' for no rows. */
  function Names(group: seq<JoinRow>): seq<string> {
    if group == [] then [] else
      var rest := Names(group[..|group| - 1]);
      match group[|group| - 1].1 {
        case Some(p) => if p.name in rest then rest else rest + [p.name]
        case None => rest
      }
  }

  function SameUser(u: UserRow): UserRow -> bool { (v: UserRow) => v == u }

  function ByEmail(email: string): UserRow -> bool { (u: UserRow) => u.email == email }

  function ByID(id: int): UserRow -> bool { (u: UserRow) => u.id == id }

  /** The whole query: join, WHERE, GROUP BY the user's columns, aggregate. None stands for pgx.ErrNoRows. */
  function Query(t: Tables, wanted: UserRow -> bool): Option<StoredUser> {
    var rows := Where(JoinPermissions(t), wanted);
    if rows == [] then None else
      var u := UserOf(rows[0]);
      var group := Where(rows, SameUser(u));
      Some(StoredUser(User(u.id, u.email, Slugs(group), Names(group)), u.passwordHash, u.active))
  }

  function FindUser(t: Tables, email: string): Option<StoredUser> {
    Query(t, ByEmail(email))
  }

  function FindUserByID(t: Tables, id: int): Option<StoredUser> {
    Query(t, ByID(id))
  }

  // ---------------------------------------------------------------- what the query means

  ghost predicate Assigned(t: Tables, userId: int, ur: UserRole, r: RoleRow) {
    ur in t.userRoles && r in t.roles && ur.userId == userId && ur.roleId == r.id
  }

  ghost predicate Granted(t: Tables, r: RoleRow, rp: RolePermission, p: PermissionRow) {
    rp in t.rolePermissions && p in t.permissions && rp.roleId == r.id && rp.permissionId == p.id
  }

  /** The user has a role with this slug. */
  ghost predicate HasRole(t: Tables, userId: int, slug: string) {
    exists ur, r :: Assigned(t, userId, ur, r) && r.slug == slug
  }

  /** One of the user's roles carries a permission with this name. */
  ghost predicate HasPermission(t: Tables, userId: int, name: string) {
    exists ur, r, rp, p :: Assigned(t, userId, ur, r) && Granted(t, r, rp, p) && p.name == name
  }

  lemma {:induction false} WhereMember(rows: seq<JoinRow>, wanted: UserRow -> bool, row: JoinRow)
    ensures row in Where(rows, wanted) <==> row in rows && wanted(UserOf(row))
  {
    if rows == [] {
    } else {
      WhereMember(rows[1..], wanted, row);
      assert rows == [rows[0]] + rows[1..];
    }
  }

  lemma {:induction false} SlugsMember(group: seq<JoinRow>, slug: string)
    ensures slug in Slugs(group) <==> exists row :: row in group && RoleOf(row).Some? && RoleOf(row).value.slug == slug
    ensures NoDuplicates(Slugs(group))
  {
    if group == [] {
    } else {
      var n := |group| - 1;
      SlugsMember(group[..n], slug);
      assert group == group[..n] + [group[n]];
      assert group[n] in group;
    }
  }

  lemma {:induction false} NamesMember(group: seq<JoinRow>, name: string)
    ensures name in Names(group) <==> exists row :: row in group && row.1.Some? && row.1.value.name == name
    ensures NoDuplicates(Names(group))
  {
    if group == [] {
    } else {
      var n := |group| - 1;
      NamesMember(group[..n], name);
      assert group == group[..n] + [group[n]];
      assert group[n] in group;
    }
  }

  /** A joined row only relates rows that the tables relate. */
  lemma {:induction false} JoinedRowSound(t: Tables, row: JoinRow)
    requires row in JoinPermissions(t)
    ensures UserOf(row) in t.users
    ensures RoleOf(row).Some? ==> HasRole(t, UserOf(row).id, RoleOf(row).value.slug)
    ensures row.1.Some? ==> HasPermission(t, UserOf(row).id, row.1.value.name)
  {
    var (rowRP, p) := row;
    var (rowR, rp) := rowRP;
    var (rowUR, r) := rowR;
    var (u, ur) := rowUR;
    LeftJoinMember(JoinRolePermissions(t), t.permissions, OnPermission, rowRP, p);
    LeftJoinMember(JoinRoles(t), t.rolePermissions, OnRolePermission, rowR, rp);
    LeftJoinMember(JoinUserRoles(t), t.roles, OnRole, rowUR, r);
    LeftJoinMember(t.users, t.userRoles, OnUserRole, u, ur);
    if r.Some? {
      assert Assigned(t, u.id, ur.value, r.value);
      if p.Some? {
        assert Granted(t, r.value, rp.value, p.value);
      }
    }
  }

  /** No user is lost by the joins, and every assignment of the user shows up. */
  lemma {:induction false} JoinedRoleComplete(t: Tables, u: UserRow, ur: Option<UserRole>, r: Option<RoleRow>)
    returns (row: JoinRow)
    requires ((u, ur), r) in JoinRoles(t)
    ensures row in JoinPermissions(t) && UserOf(row) == u && RoleOf(row) == r
  {
    var rp := LeftJoinKeeps(JoinRoles(t), t.rolePermissions, OnRolePermission, ((u, ur), r));
    var p := LeftJoinKeeps(JoinRolePermissions(t), t.permissions, OnPermission, (((u, ur), r), rp));
    row := ((((u, ur), r), rp), p);
  }

  lemma {:induction false} UserJoined(t: Tables, u: UserRow) returns (row: JoinRow)
    requires u in t.users
    ensures row in JoinPermissions(t) && UserOf(row) == u
  {
    var ur := LeftJoinKeeps(t.users, t.userRoles, OnUserRole, u);
    var r := LeftJoinKeeps(JoinUserRoles(t), t.roles, OnRole, (u, ur));
    row := JoinedRoleComplete(t, u, ur, r);
  }

  lemma {:induction false} RoleJoined(t: Tables, u: UserRow, ur: UserRole, r: RoleRow) returns (row: JoinRow)
    requires u in t.users && Assigned(t, u.id, ur, r)
    ensures ((u, Some(ur)), Some(r)) in JoinRoles(t)
    ensures row in JoinPermissions(t) && UserOf(row) == u && RoleOf(row) == Some(r)
  {
    LeftJoinMember(t.users, t.userRoles, OnUserRole, u, Some(ur));
    LeftJoinMember(JoinUserRoles(t), t.roles, OnRole, (u, Some(ur)), Some(r));
    row := JoinedRoleComplete(t, u, Some(ur), Some(r));
  }

  lemma {:induction false} PermissionJoined(t: Tables, u: UserRow, ur: UserRole, r: RoleRow, rp: RolePermission,
                                            p: PermissionRow)
    requires u in t.users && Assigned(t, u.id, ur, r) && Granted(t, r, rp, p)
    ensures ((((u, Some(ur)), Some(r)), Some(rp)), Some(p)) in JoinPermissions(t)
  {
    var _ := RoleJoined(t, u, ur, r);
    LeftJoinMember(JoinRoles(t), t.rolePermissions, OnRolePermission, ((u, Some(ur)), Some(r)), Some(rp));
    LeftJoinMember(JoinRolePermissions(t), t.permissions, OnPermission, (((u, Some(ur)), Some(r)), Some(rp)), Some(p));
  }

  /** The query's roles and permissions of one user, as a set of facts. */
  ghost predicate Describes(t: Tables, u: UserRow, s: StoredUser) {
    && s.user.id == u.id && s.user.email == u.email && s.passwordHash == u.passwordHash && s.active == u.active
    && NoDuplicates(s.user.roles) && NoDuplicates(s.user.permissions)
    && (forall slug :: slug in s.user.roles <==> HasRole(t, u.id, slug))
    && (forall name :: name in s.user.permissions <==> HasPermission(t, u.id, name))
  }

  lemma {:induction false} QueriedGroup(t: Tables, wanted: UserRow -> bool, u: UserRow, row: JoinRow)
    requires wanted(u)
    ensures row in Where(Where(JoinPermissions(t), wanted), SameUser(u)) <==>
              row in JoinPermissions(t) && UserOf(row) == u
  {
    WhereMember(Where(JoinPermissions(t), wanted), SameUser(u), row);
    WhereMember(JoinPermissions(t), wanted, row);
  }

  lemma {:induction false} GroupSlugs(t: Tables, wanted: UserRow -> bool, u: UserRow, slug: string)
    requires u in t.users && wanted(u)
    ensures slug in Slugs(Where(Where(JoinPermissions(t), wanted), SameUser(u))) <==> HasRole(t, u.id, slug)
  {
    var group := Where(Where(JoinPermissions(t), wanted), SameUser(u));
    SlugsMember(group, slug);
    if slug in Slugs(group) {
      var row :| row in group && RoleOf(row).Some? && RoleOf(row).value.slug == slug;
      QueriedGroup(t, wanted, u, row);
      JoinedRowSound(t, row);
    }
    if HasRole(t, u.id, slug) {
      var ur, r :| Assigned(t, u.id, ur, r) && r.slug == slug;
      var row := RoleJoined(t, u, ur, r);
      QueriedGroup(t, wanted, u, row);
    }
  }

  lemma {:induction false} GroupNames(t: Tables, wanted: UserRow -> bool, u: UserRow, name: string)
    requires u in t.users && wanted(u)
    ensures name in Names(Where(Where(JoinPermissions(t), wanted), SameUser(u))) <==> HasPermission(t, u.id, name)
  {
    var group := Where(Where(JoinPermissions(t), wanted), SameUser(u));
    NamesMember(group, name);
    if name in Names(group) {
      var row :| row in group && row.1.Some? && row.1.value.name == name;
      QueriedGroup(t, wanted, u, row);
      JoinedRowSound(t, row);
    }
    if HasPermission(t, u.id, name) {
      var ur, r, rp, p :| Assigned(t, u.id, ur, r) && Granted(t, r, rp, p) && p.name == name;
      PermissionJoined(t, u, ur, r, rp, p);
      QueriedGroup(t, wanted, u, ((((u, Some(ur)), Some(r)), Some(rp)), Some(p)));
    }
  }

  /** The join query finds a wanted user exactly when one exists, and then returns, without duplicates, exactly the
      roles of that user and the union of the permissions of those roles. No key constraint is needed for this. */
  lemma {:induction false} QueryExact(t: Tables, wanted: UserRow -> bool)
    ensures Query(t, wanted).None? <==> forall u | u in t.users :: !wanted(u)
    ensures Query(t, wanted).Some? ==> exists u :: u in t.users && wanted(u) && Describes(t, u, Query(t, wanted).value)
  {
    var rows := Where(JoinPermissions(t), wanted);
    if rows == [] {
      forall u | u in t.users ensures !wanted(u) {
        var row := UserJoined(t, u);
        WhereMember(JoinPermissions(t), wanted, row);
      }
    } else {
      var u := UserOf(rows[0]);
      WhereMember(JoinPermissions(t), wanted, rows[0]);
      JoinedRowSound(t, rows[0]);
      var s := Query(t, wanted).value;
      forall slug ensures slug in s.user.roles <==> HasRole(t, u.id, slug) {
        GroupSlugs(t, wanted, u, slug);
      }
      forall name ensures name in s.user.permissions <==> HasPermission(t, u.id, name) {
        GroupNames(t, wanted, u, name);
      }
      SlugsMember(Where(rows, SameUser(u)), "");
      NamesMember(Where(rows, SameUser(u)), "");
      assert Describes(t, u, s);
    }
  }
}

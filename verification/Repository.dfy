/** The PostgreSQL repository: the tables are the mutable state, and every call runs its statements one by one. */
module Repository {
  import opened Common
  import opened Directory
  import opened RefreshTokens
  import Provisioning
  import LoginLimiter
  import Database

  class PostgresRepository {
    var users: seq<UserRow>
    var roles: seq<RoleRow>
    var permissions: seq<PermissionRow>
    var userRoles: seq<UserRole>
    var rolePermissions: seq<RolePermission>
    var tokens: seq<TokenRow>
    var attempts: seq<LoginLimiter.Attempt>
    var nextUser: int
    var nextRole: int
    var nextPermission: int
    var nextToken: int

    constructor ()
      ensures Contents() == Database.Database(Tables([], [], [], [], []), Sequences(1, 1, 1), [], 1, [])
    {
      users, roles, permissions, userRoles, rolePermissions := [], [], [], [], [];
      tokens, attempts := [], [];
      nextUser, nextRole, nextPermission, nextToken := 1, 1, 1, 1;
    }

    function DirectoryTables(): Tables
      reads this
    {
      Tables(users, roles, permissions, userRoles, rolePermissions)
    }

    function Contents(): Database.Database
      reads this
    {
      Database.Database(DirectoryTables(), Sequences(nextUser, nextRole, nextPermission), tokens, nextToken, attempts)
    }

    method FindUserByEmail(email: string) returns (user: Option<StoredUser>)
      ensures user == FindUser(DirectoryTables(), email)
    {
      user := FindUser(DirectoryTables(), email);
    }

    /** INSERT INTO roles ... ON CONFLICT (slug) DO UPDATE ... RETURNING id; a conflict has still drawn an identity
        value. */
    method UpsertRole(slug: string) returns (id: int)
      modifies this`roles, this`nextRole
      ensures (roles, id) == Provisioning.UpsertRole(old(roles), old(nextRole), slug)
      ensures nextRole == old(nextRole) + 1
    {
      id := nextRole;
      nextRole := nextRole + 1;
      match Provisioning.RoleID(roles, slug) {
        case Some(existing) => id := existing;
        case None => roles := roles + [RoleRow(id, slug)];
      }
    }

    /** INSERT INTO permissions ... ON CONFLICT (name) DO UPDATE ... RETURNING id */
    method UpsertPermission(name: string) returns (id: int)
      modifies this`permissions, this`nextPermission
      ensures (permissions, id) == Provisioning.UpsertPermission(old(permissions), old(nextPermission), name)
      ensures nextPermission == old(nextPermission) + 1
    {
      id := nextPermission;
      nextPermission := nextPermission + 1;
      match Provisioning.PermissionID(permissions, name) {
        case Some(existing) => id := existing;
        case None => permissions := permissions + [PermissionRow(id, name)];
      }
    }

    /** INSERT INTO users ... ON CONFLICT (email) DO NOTHING RETURNING id; None when nothing was inserted. */
    method InsertUser(email: string, passwordHash: string) returns (id: Option<int>)
      modifies this`users, this`nextUser
      ensures nextUser == old(nextUser) + 1
      ensures id == None ==> users == old(users) && exists u :: u in users && u.email == email
      ensures id != None ==> !exists u :: u in old(users) && u.email == email
      ensures id != None ==>
                id == Some(old(nextUser)) && users == old(users) + [UserRow(old(nextUser), email, passwordHash, true)]
    {
      var drawn := nextUser;
      nextUser := nextUser + 1;
      var i := 0;
      while i < |users|
        invariant 0 <= i <= |users| && forall j :: 0 <= j < i ==> users[j].email != email
      {
        if users[i].email == email {
          assert users[i] in users;
          return None;
        }
        i := i + 1;
      }
      users := users + [UserRow(drawn, email, passwordHash, true)];
      return Some(drawn);
    }

    /** ROLLBACK: the tables are again what they were, the identity sequences are not. */
    method Rollback(begun: Tables)
      modifies this`users, this`roles, this`permissions, this`userRoles, this`rolePermissions
      ensures DirectoryTables() == begun
    {
      users, roles, permissions := begun.users, begun.roles, begun.permissions;
      userRoles, rolePermissions := begun.userRoles, begun.rolePermissions;
    }

    /** The five statements of one transaction; the role and the permission are written before the e-mail is known to be
        taken, and rolled back then. A refusal is what the lookup by e-mail foretells, and changes no table. */
    method CreateAdmin(email: string, passwordHash: string) returns (result: Result<User>)
      modifies this
      ensures (Contents(), result) == Database.CreateAdmin(old(Contents()), email, passwordHash)
      ensures result.Failure? <==> FindUser(old(DirectoryTables()), email).Some?
      ensures result.Failure? ==> DirectoryTables() == old(DirectoryTables())
    {
      hide Provisioning.AddOnce;
      hide Provisioning.UpsertRole;
      hide Provisioning.UpsertPermission;
      hide FindUser;
      Provisioning.CreatedOnce(DirectoryTables(), Sequences(nextUser, nextRole, nextPermission), email, passwordHash,
                               "");
      var begun := DirectoryTables();
      var roleID := UpsertRole(ADMIN_ROLE);
      var permissionID := UpsertPermission(ERROR_READ_GRANT);
      var userID := InsertUser(email, passwordHash);
      if userID.None? {
        Rollback(begun);
        return Failure(UserExists);
      }
      userRoles := Provisioning.AddOnce(userRoles, UserRole(userID.value, roleID));
      rolePermissions := Provisioning.AddOnce(rolePermissions, RolePermission(roleID, permissionID));
      return Success(User(userID.value, email, [ADMIN_ROLE], [ERROR_READ_GRANT]));
    }

    /** SELECT COUNT(*) FROM login_attempts WHERE rate_key = key AND succeeded = false AND attempted_at > cutoff */
    method CountFailures(key: string, cutoff: Time) returns (count: nat)
      ensures count == LoginLimiter.Count(attempts, key, cutoff)
    {
      count := 0;
      var i := 0;
      while i < |attempts|
        invariant 0 <= i <= |attempts| && count == LoginLimiter.Count(attempts[..i], key, cutoff)
      {
        var row := attempts[i];
        assert attempts[..i + 1][..i] == attempts[..i];
        if row.key == key && !row.succeeded && row.at > cutoff {
          count := count + 1;
        }
        i := i + 1;
      }
      assert attempts[..i] == attempts;
    }

    /** DELETE FROM login_attempts WHERE rate_key = key AND attempted_at <= cutoff, row by row. */
    method DeleteExpired(key: string, cutoff: Time)
      modifies this`attempts
      ensures attempts == LoginLimiter.Purge(old(attempts), key, cutoff)
    {
      var i := 0;
      ghost var seen := 0;
      while i < |attempts|
        invariant 0 <= seen <= |old(attempts)| && i <= |attempts|
        invariant attempts[i..] == old(attempts)[seen..]
        invariant attempts[..i] == LoginLimiter.Purge(old(attempts)[..seen], key, cutoff)
        decreases |attempts| - i
      {
        var row := attempts[i];
        assert row == old(attempts)[seen..][0];
        assert old(attempts)[..seen + 1][..seen] == old(attempts)[..seen];
        if row.key == key && row.at <= cutoff {
          attempts := attempts[..i] + attempts[i + 1..];
        } else {
          i := i + 1;
        }
        seen := seen + 1;
        assert attempts[i..] == old(attempts)[seen..];
      }
      assert old(attempts)[..seen] == old(attempts) && attempts[..i] == attempts;
    }

    /** DELETE FROM login_attempts WHERE rate_key = key, row by row. */
    method DeleteKey(key: string)
      modifies this`attempts
      ensures attempts == LoginLimiter.Clear(old(attempts), key)
    {
      var i := 0;
      ghost var seen := 0;
      while i < |attempts|
        invariant 0 <= seen <= |old(attempts)| && i <= |attempts|
        invariant attempts[i..] == old(attempts)[seen..]
        invariant attempts[..i] == LoginLimiter.Clear(old(attempts)[..seen], key)
        decreases |attempts| - i
      {
        assert attempts[i] == old(attempts)[seen..][0];
        assert old(attempts)[..seen + 1][..seen] == old(attempts)[..seen];
        if attempts[i].key == key {
          attempts := attempts[..i] + attempts[i + 1..];
        } else {
          i := i + 1;
        }
        seen := seen + 1;
        assert attempts[i..] == old(attempts)[seen..];
      }
      assert old(attempts)[..seen] == old(attempts) && attempts[..i] == attempts;
    }

    method IsLoginRateLimited(key: string, now: Time) returns (limited: bool)
      ensures limited == LoginLimiter.IsLimited(attempts, key, now)
    {
      var count := CountFailures(key, now - LoginLimiter.LOGIN_WINDOW);
      limited := count >= LoginLimiter.LOGIN_LIMIT;
    }

    /** DELETE, COUNT and INSERT. The answer is that of the check before the DELETE, and unless the key is limited
        exactly one more failure of it counts afterwards. */
    method RecordLoginFailure(key: string, now: Time) returns (limited: bool)
      modifies this`attempts
      ensures (Contents(), limited) == Database.RecordLoginFailure(old(Contents()), key, now)
      ensures limited <==> LoginLimiter.IsLimited(old(attempts), key, now)
      ensures LoginLimiter.Recent(attempts, key, now) ==
              LoginLimiter.Recent(old(attempts), key, now) + if limited then 0 else 1
      ensures forall i :: 0 <= i < |attempts| && attempts[i].key == key ==>
                attempts[i].at > now - LoginLimiter.LOGIN_WINDOW
      ensures forall other :: other != key ==>
                LoginLimiter.KeyRows(attempts, other) == LoginLimiter.KeyRows(old(attempts), other)
    {
      hide LoginLimiter.Count;
      hide LoginLimiter.Purge;
      hide LoginLimiter.KeyRows;
      forall other {
        LoginLimiter.RecordMeans(attempts, key, now, other);
      }
      LoginLimiter.RecordMeans(attempts, key, now, key);
      DeleteExpired(key, now - LoginLimiter.LOGIN_WINDOW);
      var count := CountFailures(key, now - LoginLimiter.LOGIN_WINDOW);
      if count >= LoginLimiter.LOGIN_LIMIT {
        return true;
      }
      attempts := attempts + [LoginLimiter.Attempt(key, now, false)];
      return false;
    }

    method ClearLoginAttempts(key: string)
      modifies this`attempts
      ensures Contents() == Database.ClearLoginAttempts(old(Contents()), key)
    {
      DeleteKey(key);
    }

    method CreateRefreshToken(userID: int, hash: Bytes, family: string, expiresAt: Time, createdAt: Time)
      returns (result: Result<()>)
      modifies this`tokens, this`nextToken
      ensures (Contents(), result) ==
                Database.CreateRefreshToken(old(Contents()), userID, hash, family, expiresAt, createdAt)
    {
      result := InsertToken(userID, hash, family, expiresAt, createdAt);
    }

    /** INSERT INTO refresh_tokens, under the identity column's next value. */
    method InsertToken(userID: int, hash: Bytes, family: string, expiresAt: Time, createdAt: Time)
      returns (result: Result<()>)
      modifies this`tokens, this`nextToken
      ensures nextToken == old(nextToken) + 1
      ensures var inserted :=
                Insert(old(tokens), users, NewRow(old(nextToken), userID, hash, family, expiresAt, createdAt));
              && (inserted.Success? ==> result == Success(()) && tokens == inserted.value)
              && (inserted.Failure? ==> result == Failure(inserted.error) && tokens == old(tokens))
    {
      var id := nextToken;
      nextToken := nextToken + 1;
      if IndexOf(tokens, hash) < |tokens| || ActiveOf(users, userID).None? {
        return Failure(DatabaseError);
      }
      tokens := tokens + [NewRow(id, userID, hash, family, expiresAt, createdAt)];
      return Success(());
    }

    /** UPDATE refresh_tokens SET revoked_at = COALESCE(revoked_at, now) WHERE family_id = family, row by row. */
    method RevokeFamilyRows(family: string, now: Time)
      modifies this`tokens
      ensures tokens == RevokeFamily(old(tokens), family, now)
    {
      var i := 0;
      while i < |tokens|
        invariant 0 <= i <= |tokens| == |old(tokens)|
        invariant tokens[..i] == RevokeFamily(old(tokens), family, now)[..i]
        invariant tokens[i..] == old(tokens)[i..]
      {
        var row := tokens[i];
        assert row == old(tokens)[i..][0];
        if row.family == family {
          tokens := tokens[i := row.(revokedAt := if row.revokedAt.Some? then row.revokedAt else Some(now))];
        }
        i := i + 1;
        assert tokens[i..] == old(tokens)[i..];
      }
    }

    /** UPDATE refresh_tokens SET used_at = now, revoked_at = now WHERE id = id, row by row. */
    method MarkTokenUsed(id: int, now: Time)
      modifies this`tokens
      ensures tokens == MarkUsed(old(tokens), id, now)
    {
      var i := 0;
      while i < |tokens|
        invariant 0 <= i <= |tokens| == |old(tokens)|
        invariant tokens[..i] == MarkUsed(old(tokens), id, now)[..i]
        invariant tokens[i..] == old(tokens)[i..]
      {
        var row := tokens[i];
        assert row == old(tokens)[i..][0];
        if row.id == id {
          tokens := tokens[i := row.(usedAt := Some(now), revokedAt := Some(now))];
        }
        i := i + 1;
        assert tokens[i..] == old(tokens)[i..];
      }
    }

    /** The successful branch of a rotation, with its rollbacks. */
    method Succeed(row: TokenRow, newHash: Bytes, newExpiry: Time, now: Time) returns (result: Result<StoredUser>)
      modifies this`tokens, this`nextToken
      ensures nextToken == old(nextToken) + 1
      ensures var inserted := Insert(MarkUsed(old(tokens), row.id, now), users,
                                     NewRow(old(nextToken), row.userId, newHash, row.family, newExpiry, now));
              var user := FindUserByID(DirectoryTables(), row.userId);
              if inserted.Failure? then result == Failure(inserted.error) && tokens == old(tokens)
              else if user.None? then result == Failure(DatabaseError) && tokens == old(tokens)
              else result == Success(user.value) && tokens == inserted.value
    {
      hide FindUserByID;
      hide MarkUsed;
      hide Insert;
      var begun := tokens;
      MarkTokenUsed(row.id, now);
      var inserted := InsertToken(row.userId, newHash, row.family, newExpiry, now);
      if inserted.Failure? {
        tokens := begun;  // rollback
        return Failure(inserted.error);
      }
      var user := FindUserByID(DirectoryTables(), row.userId);
      if user.None? {
        tokens := begun;  // rollback
        return Failure(DatabaseError);
      }
      return Success(user.value);
    }

    method RotateRefreshToken(hash: Bytes, newHash: Bytes, newExpiry: Time, now: Time)
      returns (result: Result<StoredUser>)
      modifies this`tokens, this`nextToken
      ensures (Contents(), result) == Database.RotateRefreshToken(old(Contents()), hash, newHash, newExpiry, now)
    {
      hide FindUserByID;
      hide MarkUsed;
      hide Insert;
      hide RevokeFamily;
      Database.RotationBranches(Contents(), hash, newHash, newExpiry, now);
      var k := IndexOf(tokens, hash);
      if k == |tokens| || ActiveOf(users, tokens[k].userId).None? {
        return Failure(InvalidRefreshToken);
      }
      var row := tokens[k];
      var active := ActiveOf(users, row.userId).value;
      if row.usedAt.Some? {
        RevokeFamilyRows(row.family, now);
        return Failure(RefreshReuse);
      }
      if row.revokedAt.Some? || !(row.expiresAt > now) || !active {
        return Failure(InvalidRefreshToken);
      }
      result := Succeed(row, newHash, newExpiry, now);
    }

    method RevokeRefreshFamilyByToken(hash: Bytes, now: Time)
      modifies this`tokens
      ensures Contents() == Database.RevokeRefreshFamilyByToken(old(Contents()), hash, now)
    {
      var k := IndexOf(tokens, hash);
      if k < |tokens| {
        RevokeFamilyRows(tokens[k].family, now);
      }
    }
  }
}

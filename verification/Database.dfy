/** The whole database as a value, and each repository call as one function on it. */
module Database {
  import opened Common
  import opened Directory
  import Provisioning
  import opened RefreshTokens
  import LoginLimiter

  datatype Database = Database(
    tables: Tables,
    sequences: Sequences,
    tokens: seq<TokenRow>,
    nextToken: int,
    attempts: seq<LoginLimiter.Attempt>)

  function CreateAdmin(db: Database, email: string, passwordHash: string): (Database, Result<User>) {
    var (t, q, r) := Provisioning.CreateAdmin(db.tables, db.sequences, email, passwordHash);
    (db.(tables := t, sequences := q), r)
  }

  function RecordLoginFailure(db: Database, key: string, now: Time): (Database, bool) {
    var (rows, limited) := LoginLimiter.RecordFailure(db.attempts, key, now);
    (db.(attempts := rows), limited)
  }

  function ClearLoginAttempts(db: Database, key: string): Database {
    db.(attempts := LoginLimiter.Clear(db.attempts, key))
  }

  /** A refused INSERT has still drawn an identity value. */
  function CreateRefreshToken(db: Database, userId: int, hash: Bytes, family: string, expiresAt: Time, createdAt: Time)
    : (Database, Result<()>)
  {
    var row := NewRow(db.nextToken, userId, hash, family, expiresAt, createdAt);
    match Insert(db.tokens, db.tables.users, row)
    case Success(rows) => (db.(tokens := rows, nextToken := db.nextToken + 1), Success(()))
    case Failure(error) => (db.(nextToken := db.nextToken + 1), Failure(error))
  }

  /** Rotation, and the joined user read in the same transaction. */
  function RotateRefreshToken(db: Database, hash: Bytes, newHash: Bytes, newExpiry: Time, now: Time)
    : (Database, Result<StoredUser>)
  {
    var (rows, verdict) := Rotate(db.tokens, db.tables.users, hash, newHash, newExpiry, db.nextToken, now);
    match verdict
    case Refused(error) =>
      (db.(tokens := rows, nextToken := if error == DatabaseError then db.nextToken + 1 else db.nextToken),
       Failure(error))
    case Rotated(userId) =>
      match FindUserByID(db.tables, userId)
      case None => (db.(nextToken := db.nextToken + 1), Failure(DatabaseError))
      case Some(user) => (db.(tokens := rows, nextToken := db.nextToken + 1), Success(user))
  }

  /** The rotation, branch by branch. */
  lemma {:induction false} RotationBranches(db: Database, hash: Bytes, newHash: Bytes, newExpiry: Time, now: Time)
    ensures var (db', result) := RotateRefreshToken(db, hash, newHash, newExpiry, now);
            var k := IndexOf(db.tokens, hash);
            if k == |db.tokens| || ActiveOf(db.tables.users, db.tokens[k].userId).None? then
              (db', result) == (db, Failure(InvalidRefreshToken))
            else
              var row := db.tokens[k];
              if row.usedAt.Some? then
                (db', result) == (db.(tokens := RevokeFamily(db.tokens, row.family, now)), Failure(RefreshReuse))
              else if row.revokedAt.Some? || row.expiresAt <= now || !ActiveOf(db.tables.users, row.userId).value then
                (db', result) == (db, Failure(InvalidRefreshToken))
              else
                var inserted := Insert(MarkUsed(db.tokens, row.id, now), db.tables.users,
                                       NewRow(db.nextToken, row.userId, newHash, row.family, newExpiry, now));
                var user := FindUserByID(db.tables, row.userId);
                var drawn := db.(nextToken := db.nextToken + 1);
                if inserted.Failure? then (db', result) == (drawn, Failure(inserted.error))
                else if user.None? then (db', result) == (drawn, Failure(DatabaseError))
                else (db', result) == (drawn.(tokens := inserted.value), Success(user.value))
  {
    hide FindUserByID;
    hide MarkUsed;
    hide RevokeFamily;
  }

  function RevokeRefreshFamilyByToken(db: Database, hash: Bytes, now: Time): Database {
    db.(tokens := RevokeByToken(db.tokens, hash, now))
  }

  // ---------------------------------------------------------------- what the calls mean for one another

  /** The joined lookup finds a user whom the token table's join finds. */
  lemma {:induction false} ActiveUserIsFound(t: Tables, id: int)
    requires ActiveOf(t.users, id).Some?
    ensures FindUserByID(t, id).Some?
    ensures exists u :: u in t.users && u.id == id && Describes(t, u, FindUserByID(t, id).value)
  {
    QueryExact(t, ByID(id));
    UserPresent(t.users, id);
    var u :| u in t.users && u.id == id;
    assert ByID(id)(u);
    var found :| found in t.users && ByID(id)(found) && Describes(t, found, Query(t, ByID(id)).value);
    assert found in t.users && found.id == id && Describes(t, found, FindUserByID(t, id).value);
  }

  lemma {:induction false} UserPresent(users: seq<UserRow>, id: int)
    requires ActiveOf(users, id).Some?
    ensures exists u :: u in users && u.id == id
  {
    if users[0].id == id {
      assert users[0] in users;
    } else {
      UserPresent(users[1..], id);
      var u :| u in users[1..] && u.id == id;
      assert u in users;
    }
  }

  /** A token that was created can be rotated exactly while it has not expired and its user is active, and only under
      a new hash; a token that was not created has left the table as it was. */
  lemma {:induction false} CreatedTokenRotates(db: Database, userId: int, hash: Bytes, family: string, expiresAt: Time,
                                               createdAt: Time, newHash: Bytes, newExpiry: Time, now: Time)
    ensures var (db', created) := CreateRefreshToken(db, userId, hash, family, expiresAt, createdAt);
            var rotated := RotateRefreshToken(db', hash, newHash, newExpiry, now).1;
            && (created.Failure? ==> db'.tokens == db.tokens)
            && (created.Success? ==>
                && db'.tokens == db.tokens + [NewRow(db.nextToken, userId, hash, family, expiresAt, createdAt)]
                && IndexOf(db.tokens, hash) == |db.tokens|
                && (rotated.Success? <==>
                    && now < expiresAt && ActiveOf(db.tables.users, userId) == Some(true)
                    && IndexOf(db'.tokens, newHash) == |db'.tokens|)
                && (rotated.Success? ==> rotated.value.user.id == userId))
  {
    var (db', created) := CreateRefreshToken(db, userId, hash, family, expiresAt, createdAt);
    if created.Success? {
      var row := NewRow(db.nextToken, userId, hash, family, expiresAt, createdAt);
      AppendedIsFound(db.tokens, row);
      SameHashes(db'.tokens, MarkUsed(db'.tokens, row.id, now), newHash);
      ActiveUserIsFound(db.tables, userId);
    }
  }

  lemma {:induction false} AppendedIsFound(rows: seq<TokenRow>, row: TokenRow)
    requires IndexOf(rows, row.hash) == |rows|
    ensures IndexOf(rows + [row], row.hash) == |rows|
  {
    var longer := rows + [row];
    forall i | 0 <= i < |rows| ensures longer[i].hash != row.hash {
      assert longer[i] == rows[i];
    }
    assert longer[|rows|] == row;
  }
}

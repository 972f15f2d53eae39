/** The refresh_tokens table: what each statement sequence does to it in one atomic step, and what every step keeps. */
module RefreshTokens {
  import opened Common
  import opened Directory

  datatype TokenRow = TokenRow(
    id: int,
    userId: int,
    hash: Bytes,
    family: string,
    expiresAt: Time,
    createdAt: Time,
    usedAt: Option<Time>,
    revokedAt: Option<Time>)

  datatype Verdict = Rotated(userId: int) | Refused(error: Error)

  /** The row with this hash; |rows| when there is none. */
  function IndexOf(rows: seq<TokenRow>, hash: Bytes): (i: nat)
    ensures i <= |rows|
    ensures i < |rows| ==> rows[i].hash == hash
    ensures forall j :: 0 <= j < i ==> rows[j].hash != hash
  {
    if rows == [] || rows[0].hash == hash then 0 else 1 + IndexOf(rows[1..], hash)
  }

  /** The user's active flag; None when the join with users finds no row. */
  function ActiveOf(users: seq<UserRow>, id: int): Option<bool> {
    if users == [] then None
    else if users[0].id == id then Some(users[0].active)
    else ActiveOf(users[1..], id)
  }

  /** SET revoked_at = COALESCE(revoked_at, now) */
  function Revoked(row: TokenRow, now: Time): TokenRow {
    if row.revokedAt.Some? then row else row.(revokedAt := Some(now))
  }

  function RevokeFamily(rows: seq<TokenRow>, family: string, now: Time): seq<TokenRow> {
    seq(|rows|, i requires 0 <= i < |rows| => if rows[i].family == family then Revoked(rows[i], now) else rows[i])
  }

  function MarkUsed(rows: seq<TokenRow>, id: int, now: Time): seq<TokenRow> {
    seq(|rows|, i requires 0 <= i < |rows| =>
      if rows[i].id == id then rows[i].(usedAt := Some(now), revokedAt := Some(now)) else rows[i])
  }

  /** INSERT with its UNIQUE and REFERENCES constraints; id is the value the identity column drew. */
  function Insert(rows: seq<TokenRow>, users: seq<UserRow>, row: TokenRow): Result<seq<TokenRow>> {
    if IndexOf(rows, row.hash) < |rows| || ActiveOf(users, row.userId).None? then Failure(DatabaseError)
    else Success(rows + [row])
  }

  function NewRow(id: int, userId: int, hash: Bytes, family: string, expiresAt: Time, createdAt: Time): TokenRow {
    TokenRow(id, userId, hash, family, expiresAt, createdAt, None, None)
  }

  /** One rotation, from BEGIN to COMMIT or ROLLBACK. The used check comes before every other check. */
  function Rotate(rows: seq<TokenRow>, users: seq<UserRow>, hash: Bytes, newHash: Bytes, newExpiry: Time, newId: int,
                  now: Time)
    : (seq<TokenRow>, Verdict)
  {
    var k := IndexOf(rows, hash);
    if k == |rows| || ActiveOf(users, rows[k].userId).None? then (rows, Refused(InvalidRefreshToken)) else
      var row := rows[k];
      if row.usedAt.Some? then (RevokeFamily(rows, row.family, now), Refused(RefreshReuse))
      else if row.revokedAt.Some? || row.expiresAt <= now || !ActiveOf(users, row.userId).value then
        (rows, Refused(InvalidRefreshToken))
      else
        match Insert(MarkUsed(rows, row.id, now), users, NewRow(newId, row.userId, newHash, row.family, newExpiry, now))
        case Success(rows') => (rows', Rotated(row.userId))
        case Failure(error) => (rows, Refused(error))
  }

  /** UPDATE ... WHERE family_id = (SELECT family_id ... WHERE token_hash = hash); an unknown hash selects nothing. */
  function RevokeByToken(rows: seq<TokenRow>, hash: Bytes, now: Time): seq<TokenRow> {
    var k := IndexOf(rows, hash);
    if k == |rows| then rows else RevokeFamily(rows, rows[k].family, now)
  }

  // ---------------------------------------------------------------- one atomic step

  datatype Op =
    | CreateOp(row: TokenRow)
    | RotateOp(hash: Bytes, newHash: Bytes, newExpiry: Time, newId: int, now: Time)
    | RevokeOp(hash: Bytes, now: Time)

  function Apply(rows: seq<TokenRow>, users: seq<UserRow>, op: Op): seq<TokenRow> {
    match op
    case CreateOp(row) => if Insert(rows, users, row).Success? then Insert(rows, users, row).value else rows
    case RotateOp(hash, newHash, newExpiry, newId, now) => Rotate(rows, users, hash, newHash, newExpiry, newId, now).0
    case RevokeOp(hash, now) => RevokeByToken(rows, hash, now)
  }

  ghost predicate FamilyUnknown(rows: seq<TokenRow>, family: string) {
    forall i :: 0 <= i < |rows| ==> rows[i].family != family
  }

  /** What the sequence and the random source provide: a new id, and for a login a new family. */
  ghost predicate Draws(rows: seq<TokenRow>, op: Op) {
    match op
    case CreateOp(row) =>
      row.usedAt.None? && row.revokedAt.None? && FamilyUnknown(rows, row.family) && IdUnknown(rows, row.id)
    case RotateOp(_, _, _, newId, _) => IdUnknown(rows, newId)
    case RevokeOp(_, _) => true
  }

  ghost predicate IdUnknown(rows: seq<TokenRow>, id: int) {
    forall i :: 0 <= i < |rows| ==> rows[i].id != id
  }

  // ---------------------------------------------------------------- what every step keeps

  ghost predicate UniqueKeys(rows: seq<TokenRow>) {
    forall i, j :: 0 <= i < j < |rows| ==> rows[i].id != rows[j].id && rows[i].hash != rows[j].hash
  }

  ghost predicate OneUser(rows: seq<TokenRow>) {
    forall i, j :: 0 <= i < |rows| && 0 <= j < |rows| && rows[i].family == rows[j].family ==>
      rows[i].userId == rows[j].userId
  }

  ghost predicate UnusedIn(rows: seq<TokenRow>, family: string, i: int) {
    0 <= i < |rows| && rows[i].family == family && rows[i].usedAt.None?
  }

  ghost predicate UnusedOnlyAt(rows: seq<TokenRow>, family: string, j: int) {
    UnusedIn(rows, family, j) && forall i :: UnusedIn(rows, family, i) ==> i == j
  }

  /** The family has exactly one unused token. */
  ghost predicate HasOneUnused(rows: seq<TokenRow>, family: string) {
    exists j :: UnusedOnlyAt(rows, family, j)
  }

  ghost predicate OneUnused(rows: seq<TokenRow>) {
    forall i :: 0 <= i < |rows| ==> HasOneUnused(rows, rows[i].family)
  }

  ghost predicate UsedIsRevoked(rows: seq<TokenRow>) {
    forall i :: 0 <= i < |rows| && rows[i].usedAt.Some? ==> rows[i].revokedAt.Some?
  }

  /** The invariant of the table. */
  ghost predicate Sound(rows: seq<TokenRow>) {
    UniqueKeys(rows) && OneUser(rows) && OneUnused(rows) && UsedIsRevoked(rows)
  }

  /** Row by row the same, except that a revocation time may have been filled in. */
  ghost predicate OnlyRevokes(rows: seq<TokenRow>, rows': seq<TokenRow>) {
    && |rows| == |rows'|
    && forall i :: 0 <= i < |rows| ==>
         rows'[i] == rows[i] || (rows[i].revokedAt.None? && rows'[i].revokedAt.Some? &&
                                 rows'[i] == rows[i].(revokedAt := rows'[i].revokedAt))
  }

  lemma {:induction false} RevokingKeepsUnused(rows: seq<TokenRow>, rows': seq<TokenRow>)
    requires OnlyRevokes(rows, rows') && OneUnused(rows)
    ensures OneUnused(rows')
  {
    forall i | 0 <= i < |rows'| ensures HasOneUnused(rows', rows'[i].family) {
      var j :| UnusedOnlyAt(rows, rows[i].family, j);
      assert forall n :: UnusedIn(rows', rows[i].family, n) ==> UnusedIn(rows, rows[i].family, n);
      assert UnusedOnlyAt(rows', rows'[i].family, j);
    }
  }

  lemma {:induction false} RevokingSound(rows: seq<TokenRow>, rows': seq<TokenRow>)
    requires OnlyRevokes(rows, rows') && Sound(rows)
    ensures Sound(rows')
  {
    RevokingKeepsUnused(rows, rows');
  }

  lemma {:induction false} AppendingKeepsUnused(rows: seq<TokenRow>, row: TokenRow)
    requires OneUnused(rows) && FamilyUnknown(rows, row.family) && row.usedAt.None?
    ensures OneUnused(rows + [row])
  {
    var rows' := rows + [row];
    forall i | 0 <= i < |rows'| ensures HasOneUnused(rows', rows'[i].family) {
      if i < |rows| {
        var j :| UnusedOnlyAt(rows, rows[i].family, j);
        assert forall n :: UnusedIn(rows', rows[i].family, n) ==> UnusedIn(rows, rows[i].family, n);
        assert UnusedOnlyAt(rows', rows'[i].family, j);
      } else {
        assert UnusedOnlyAt(rows', row.family, |rows|);
      }
    }
  }

  lemma {:induction false} InsertSound(rows: seq<TokenRow>, users: seq<UserRow>, row: TokenRow)
    requires Sound(rows) && Draws(rows, CreateOp(row))
    ensures Sound(Apply(rows, users, CreateOp(row)))
  {
    AppendingKeepsUnused(rows, row);
  }

  /** What a successful rotation leaves: the presented token is spent and its successor is appended. */
  ghost predicate Succeeds(rows: seq<TokenRow>, k: nat, row: TokenRow, rows': seq<TokenRow>) {
    && k < |rows| && UnusedIn(rows, rows[k].family, k) && |rows'| == |rows| + 1
    && rows'[k].usedAt.Some? && rows'[k].revokedAt.Some?
    && rows'[k] == rows[k].(usedAt := rows'[k].usedAt, revokedAt := rows'[k].revokedAt)
    && (forall i :: 0 <= i < |rows| && i != k ==> rows'[i] == rows[i])
    && rows'[|rows|] == row
    && row.family == rows[k].family && row.userId == rows[k].userId && row.usedAt.None? && row.revokedAt.None?
  }

  /** The spent token and its successor trade places as the one unused token of the family. */
  lemma {:induction false} RotatingKeepsUnused(rows: seq<TokenRow>, k: nat, row: TokenRow, rows': seq<TokenRow>)
    requires OneUnused(rows) && Succeeds(rows, k, row, rows')
    ensures OneUnused(rows')
  {
    forall i | 0 <= i < |rows'| ensures HasOneUnused(rows', rows'[i].family) {
      if rows'[i].family == row.family {
        var j :| UnusedOnlyAt(rows, row.family, j);
        assert j == k;
        assert forall n :: UnusedIn(rows', row.family, n) && n < |rows| && n != k ==> UnusedIn(rows, row.family, n);
        assert UnusedOnlyAt(rows', row.family, |rows|);
      } else {
        var f := rows[i].family;
        var j :| UnusedOnlyAt(rows, f, j);
        forall n | UnusedIn(rows', f, n) ensures n == j {
          assert UnusedIn(rows, f, n);
        }
        assert UnusedOnlyAt(rows', f, j);
      }
    }
  }

  lemma {:induction false} RotatingSound(rows: seq<TokenRow>, k: nat, row: TokenRow, rows': seq<TokenRow>)
    requires Sound(rows) && Succeeds(rows, k, row, rows')
    requires IdUnknown(rows, row.id) && IndexOf(rows, row.hash) == |rows|
    ensures Sound(rows')
  {
    RotatingKeepsUnused(rows, k, row, rows');
    RotatingKeepsKeys(rows, k, row, rows');
    RotatingKeepsUsers(rows, k, row, rows');
  }

  lemma {:induction false} RotatingKeepsKeys(rows: seq<TokenRow>, k: nat, row: TokenRow, rows': seq<TokenRow>)
    requires UniqueKeys(rows) && Succeeds(rows, k, row, rows')
    requires IdUnknown(rows, row.id) && IndexOf(rows, row.hash) == |rows|
    ensures UniqueKeys(rows')
  {
    forall i, j | 0 <= i < j < |rows'| ensures rows'[i].id != rows'[j].id && rows'[i].hash != rows'[j].hash {
      assert rows'[i].id == rows[i].id && rows'[i].hash == rows[i].hash;
      if j < |rows| {
        assert rows'[j].id == rows[j].id && rows'[j].hash == rows[j].hash;
      }
    }
  }

  lemma {:induction false} RotatingKeepsUsers(rows: seq<TokenRow>, k: nat, row: TokenRow, rows': seq<TokenRow>)
    requires OneUser(rows) && Succeeds(rows, k, row, rows')
    ensures OneUser(rows')
  {
    forall i, j | 0 <= i < |rows'| && 0 <= j < |rows'| && rows'[i].family == rows'[j].family
      ensures rows'[i].userId == rows'[j].userId
    {
      var a := if i < |rows| then i else k;
      var b := if j < |rows| then j else k;
      assert rows[a].family == rows'[i].family && rows[a].userId == rows'[i].userId;
      assert rows[b].family == rows'[j].family && rows[b].userId == rows'[j].userId;
    }
  }

  lemma {:induction false} SameHashes(a: seq<TokenRow>, b: seq<TokenRow>, hash: Bytes)
    requires |a| == |b| && forall i :: 0 <= i < |a| ==> a[i].hash == b[i].hash
    ensures IndexOf(a, hash) == IndexOf(b, hash)
  {
  }

  /** Marking by id touches only the presented row, because ids are unique. */
  lemma {:induction false} RotateSucceeds(rows: seq<TokenRow>, users: seq<UserRow>, op: Op)
    requires op.RotateOp? && UniqueKeys(rows)
    requires Rotate(rows, users, op.hash, op.newHash, op.newExpiry, op.newId, op.now).1.Rotated?
    ensures var k := IndexOf(rows, op.hash);
            && k < |rows|
            && var row := NewRow(op.newId, rows[k].userId, op.newHash, rows[k].family, op.newExpiry, op.now);
            && Succeeds(rows, k, row, Apply(rows, users, op)) && IndexOf(rows, op.newHash) == |rows|
            && Apply(rows, users, op)[k].usedAt == Some(op.now)
  {
    var k := IndexOf(rows, op.hash);
    SameHashes(rows, MarkUsed(rows, rows[k].id, op.now), op.newHash);
  }

  /** Every other outcome at most revokes. */
  lemma {:induction false} OtherwiseOnlyRevokes(rows: seq<TokenRow>, users: seq<UserRow>, op: Op)
    requires !op.CreateOp?
    requires op.RotateOp? ==> !Rotate(rows, users, op.hash, op.newHash, op.newExpiry, op.newId, op.now).1.Rotated?
    ensures OnlyRevokes(rows, Apply(rows, users, op))
  {
  }

  /** Every atomic step keeps the invariant: unique keys, one user per family, exactly one unused token per family,
      and no used token that is not revoked. */
  lemma {:induction false} StepSound(rows: seq<TokenRow>, users: seq<UserRow>, op: Op)
    requires Sound(rows) && Draws(rows, op)
    ensures Sound(Apply(rows, users, op))
  {
    if op.CreateOp? {
      InsertSound(rows, users, op.row);
    } else if op.RotateOp? && Rotate(rows, users, op.hash, op.newHash, op.newExpiry, op.newId, op.now).1.Rotated? {
      RotateSucceeds(rows, users, op);
      var k := IndexOf(rows, op.hash);
      RotatingSound(rows, k, NewRow(op.newId, rows[k].userId, op.newHash, rows[k].family, op.newExpiry, op.now),
                    Apply(rows, users, op));
    } else {
      OtherwiseOnlyRevokes(rows, users, op);
      RevokingSound(rows, Apply(rows, users, op));
    }
  }
}

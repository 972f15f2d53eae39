/** Any number of rotations, logins and logouts running at once under READ COMMITTED, statement by statement.
    A transaction's writes stay private until it commits. A rotation holds the row locks of SELECT ... FOR UPDATE
    on its token and on the token's user until it ends; a statement that needs a held lock is not enabled. */
module ConcurrentRotation {
  import opened Common
  import opened Directory
  import opened RefreshTokens
  import opened RefreshHistory

  datatype Phase =
    | Ready
    | Holding(row: TokenRow, active: bool)           // SELECT ... FOR UPDATE returned
    | Revoking(row: TokenRow, targets: set<int>)     // the family UPDATE ran, not committed
    | Marked(row: TokenRow)                          // the used_at UPDATE ran, not committed
    | Inserted(row: TokenRow, successor: TokenRow)   // the INSERT ran, not committed
    | Ended(verdict: Option<Verdict>)                // None: the database call failed and rolled back

  datatype Client = Client(hash: Bytes, newHash: Bytes, newExpiry: Time, now: Time, phase: Phase)

  /** One logout: a single UPDATE, whose snapshot is taken when it starts. */
  datatype Logout = Waiting(hash: Bytes, now: Time) | Snapshot(hash: Bytes, targets: set<int>, now: Time) | LoggedOut

  /** A step of the serial order: an atomic operation (a rotation by a client, or a login), a logout that revokes the
      rows of its snapshot, or a change of a user's active flag. */
  datatype Entry =
    | Atomic(client: Option<nat>, op: Op, verdict: Option<Verdict>)
    | RevokeIDs(targets: set<int>, now: Time)
    | SetActive(userId: int, active: bool)

  datatype World = World(
    users: seq<UserRow>,
    rows: seq<TokenRow>,
    nextId: int,
    clients: seq<Client>,
    logouts: seq<Logout>,
    history: seq<Entry>)

  /** UPDATE users SET active = ... WHERE id = ... */
  function WithActive(users: seq<UserRow>, id: int, active: bool): seq<UserRow> {
    if users == [] then [] else
      [if users[0].id == id then users[0].(active := active) else users[0]] + WithActive(users[1..], id, active)
  }

  function FamilyIDs(rows: seq<TokenRow>, family: string): set<int> {
    set i | 0 <= i < |rows| && rows[i].family == family :: rows[i].id
  }

  function RevokeRows(rows: seq<TokenRow>, ids: set<int>, now: Time): seq<TokenRow> {
    seq(|rows|, i requires 0 <= i < |rows| => if rows[i].id in ids then Revoked(rows[i], now) else rows[i])
  }

  // ---------------------------------------------------------------- the serial order

  function VerdictOf(rows: seq<TokenRow>, users: seq<UserRow>, op: Op): Option<Verdict> {
    match op
    case RotateOp(hash, newHash, newExpiry, newId, now) =>
      Some(Rotate(rows, users, hash, newHash, newExpiry, newId, now).1)
    case _ => None
  }

  function ApplyEntry(rows: seq<TokenRow>, users: seq<UserRow>, e: Entry): seq<TokenRow> {
    match e
    case Atomic(_, op, _) => Apply(rows, users, op)
    case RevokeIDs(targets, now) => RevokeRows(rows, targets, now)
    case SetActive(_, _) => rows
  }

  function UsersAfter(users: seq<UserRow>, history: seq<Entry>): seq<UserRow> {
    if history == [] then users else
      var before := UsersAfter(users, history[..|history| - 1]);
      match history[|history| - 1]
      case SetActive(userId, active) => WithActive(before, userId, active)
      case _ => before
  }

  function Replay(rows: seq<TokenRow>, users: seq<UserRow>, history: seq<Entry>): seq<TokenRow> {
    if history == [] then rows else
      var front := history[..|history| - 1];
      ApplyEntry(Replay(rows, users, front), UsersAfter(users, front), history[|history| - 1])
  }

  /** Executed one after the other from the initial table, the operations give these very verdicts. */
  ghost predicate Serial(rows: seq<TokenRow>, users: seq<UserRow>, history: seq<Entry>) {
    forall n :: 0 <= n < |history| ==> SerialAt(rows, users, history, n)
  }

  ghost predicate SerialAt(rows: seq<TokenRow>, users: seq<UserRow>, history: seq<Entry>, n: nat)
    requires n < |history|
  {
    match history[n]
    case Atomic(_, op, verdict) =>
      var before := Replay(rows, users, history[..n]);
      Draws(before, op) && verdict == VerdictOf(before, UsersAfter(users, history[..n]), op)
    case _ => true
  }

  // ---------------------------------------------------------------- the steps

  predicate Holds(p: Phase) { p.Holding? || p.Revoking? || p.Marked? || p.Inserted? }

  ghost predicate TokenLocked(w: World, id: int) {
    exists c :: 0 <= c < |w.clients| && Holds(w.clients[c].phase) && w.clients[c].phase.row.id == id
  }

  ghost predicate UserLocked(w: World, userId: int) {
    exists c :: 0 <= c < |w.clients| && Holds(w.clients[c].phase) && w.clients[c].phase.row.userId == userId
  }

  /** An uncommitted INSERT of the same hash makes a second one wait on the unique index. */
  ghost predicate HashPending(w: World, hash: Bytes) {
    exists c :: 0 <= c < |w.clients| && w.clients[c].phase.Inserted? && w.clients[c].phase.successor.hash == hash
  }

  datatype Action =
    | Select(c: nat)
    | Decide(c: nat)
    | InsertSuccessor(c: nat)
    | Commit(c: nat)
    | Abort(c: nat)
    | Login(row: TokenRow)
    | LogoutStart(l: nat)
    | LogoutFinish(l: nat)
    | SetUserActive(userId: int, active: bool)

  ghost predicate Enabled(w: World, a: Action) {
    match a
    case Select(c) =>
      && c < |w.clients| && w.clients[c].phase.Ready?
      && var k := IndexOf(w.rows, w.clients[c].hash);
         k < |w.rows| && ActiveOf(w.users, w.rows[k].userId).Some? ==>
           !TokenLocked(w, w.rows[k].id) && !UserLocked(w, w.rows[k].userId)
    case Decide(c) => c < |w.clients| && w.clients[c].phase.Holding?
    case InsertSuccessor(c) => c < |w.clients| && w.clients[c].phase.Marked? && !HashPending(w, w.clients[c].newHash)
    case Commit(c) => c < |w.clients| && (w.clients[c].phase.Revoking? || w.clients[c].phase.Inserted?)
    case Abort(c) => c < |w.clients| && !w.clients[c].phase.Ended?
    case Login(row) =>
      && row.id == w.nextId && row.usedAt.None? && row.revokedAt.None? && FamilyUnknown(w.rows, row.family)
      && !UserLocked(w, row.userId) && !HashPending(w, row.hash)
    case LogoutStart(l) => l < |w.logouts| && w.logouts[l].Waiting?
    case LogoutFinish(l) =>
      && l < |w.logouts| && w.logouts[l].Snapshot?
      && forall id :: id in w.logouts[l].targets ==> !TokenLocked(w, id)
    case SetUserActive(userId, _) => !UserLocked(w, userId)
  }

  function At(w: World, c: nat, p: Phase): World
    requires c < |w.clients|
  {
    w.(clients := w.clients[c := w.clients[c].(phase := p)])
  }

  /** The client's call as one atomic operation. */
  function Call(x: Client, id: int): Op { RotateOp(x.hash, x.newHash, x.newExpiry, id, x.now) }

  function End(w: World, c: nat, id: int, verdict: Verdict): World
    requires c < |w.clients|
  {
    At(w, c, Ended(Some(verdict))).(history := w.history + [Atomic(Some(c), Call(w.clients[c], id), Some(verdict))])
  }

  function Usable(row: TokenRow, active: bool, now: Time): bool {
    row.usedAt.None? && row.revokedAt.None? && row.expiresAt > now && active
  }

  function SelectForUpdate(w: World, c: nat): World
    requires c < |w.clients|
  {
    var k := IndexOf(w.rows, w.clients[c].hash);
    if k == |w.rows| || ActiveOf(w.users, w.rows[k].userId).None? then End(w, c, w.nextId, Refused(InvalidRefreshToken))
    else At(w, c, Holding(w.rows[k], ActiveOf(w.users, w.rows[k].userId).value))
  }

  function CheckAndUpdate(w: World, c: nat): World
    requires c < |w.clients| && w.clients[c].phase.Holding?
  {
    var Holding(row, active) := w.clients[c].phase;
    if row.usedAt.Some? then At(w, c, Revoking(row, FamilyIDs(w.rows, row.family)))
    else if Usable(row, active, w.clients[c].now) then At(w, c, Marked(row))
    else End(w, c, w.nextId, Refused(InvalidRefreshToken))
  }

  /** The row which the client's INSERT adds, under the next identity value. */
  function Successor(w: World, x: Client): TokenRow
    requires x.phase.Marked?
  {
    NewRow(w.nextId, x.phase.row.userId, x.newHash, x.phase.row.family, x.newExpiry, x.now)
  }

  function InsertRow(w: World, c: nat): World
    requires c < |w.clients| && w.clients[c].phase.Marked?
  {
    var x := w.clients[c];
    var w' := w.(nextId := w.nextId + 1);
    if IndexOf(w.rows, x.newHash) < |w.rows| then End(w', c, w.nextId, Refused(DatabaseError))
    else At(w', c, Inserted(x.phase.row, Successor(w, x)))
  }

  /** The committed table after the client's private writes join it. */
  function Committed(rows: seq<TokenRow>, x: Client): seq<TokenRow>
    requires x.phase.Revoking? || x.phase.Inserted?
  {
    if x.phase.Revoking? then RevokeRows(rows, x.phase.targets, x.now)
    else MarkUsed(rows, x.phase.row.id, x.now) + [x.phase.successor]
  }

  function CommitWrites(w: World, c: nat): World
    requires c < |w.clients| && (w.clients[c].phase.Revoking? || w.clients[c].phase.Inserted?)
  {
    var x := w.clients[c];
    var w' := w.(rows := Committed(w.rows, x));
    if x.phase.Revoking? then End(w', c, w.nextId, Refused(RefreshReuse))
    else End(w', c, x.phase.successor.id, Rotated(x.phase.row.userId))
  }

  function InsertLogin(w: World, row: TokenRow): World {
    w.(rows := Apply(w.rows, w.users, CreateOp(row)), nextId := w.nextId + 1,
       history := w.history + [Atomic(None, CreateOp(row), None)])
  }

  function TakeSnapshot(w: World, l: nat): World
    requires l < |w.logouts| && w.logouts[l].Waiting?
  {
    var k := IndexOf(w.rows, w.logouts[l].hash);
    var targets := if k == |w.rows| then {} else FamilyIDs(w.rows, w.rows[k].family);
    w.(logouts := w.logouts[l := Snapshot(w.logouts[l].hash, targets, w.logouts[l].now)])
  }

  function RevokeSnapshot(w: World, l: nat): World
    requires l < |w.logouts| && w.logouts[l].Snapshot?
  {
    w.(rows := RevokeRows(w.rows, w.logouts[l].targets, w.logouts[l].now),
       logouts := w.logouts[l := LoggedOut],
       history := w.history + [RevokeIDs(w.logouts[l].targets, w.logouts[l].now)])
  }

  function ChangeUser(w: World, userId: int, active: bool): World {
    w.(users := WithActive(w.users, userId, active), history := w.history + [SetActive(userId, active)])
  }

  ghost function Step(w: World, a: Action): World
    requires Enabled(w, a)
  {
    match a
    case Select(c) => SelectForUpdate(w, c)
    case Decide(c) => CheckAndUpdate(w, c)
    case InsertSuccessor(c) => InsertRow(w, c)
    case Commit(c) => CommitWrites(w, c)
    case Abort(c) => At(w, c, Ended(None))
    case Login(row) => InsertLogin(w, row)
    case LogoutStart(l) => TakeSnapshot(w, l)
    case LogoutFinish(l) => RevokeSnapshot(w, l)
    case SetUserActive(userId, active) => ChangeUser(w, userId, active)
  }

  // ---------------------------------------------------------------- the invariant

  ghost predicate Stored(rows: seq<TokenRow>, row: TokenRow) {
    IndexOf(rows, row.hash) < |rows| && rows[IndexOf(rows, row.hash)] == row
  }

  ghost predicate ClientInv(users: seq<UserRow>, rows: seq<TokenRow>, nextId: int, x: Client) {
    match x.phase
    case Ready => true
    case Holding(row, active) => Stored(rows, row) && row.hash == x.hash && ActiveOf(users, row.userId) == Some(active)
    case Revoking(row, targets) =>
      && Stored(rows, row) && row.hash == x.hash && ActiveOf(users, row.userId).Some? && row.usedAt.Some?
      && targets == FamilyIDs(rows, row.family)
    case Marked(row) => MarkedInv(users, rows, x, row)
    case Inserted(row, successor) =>
      && MarkedInv(users, rows, x, row)
      && successor == NewRow(successor.id, row.userId, x.newHash, row.family, x.newExpiry, x.now)
      && successor.id < nextId && IdUnknown(rows, successor.id) && IndexOf(rows, x.newHash) == |rows|
    case Ended(_) => true
  }

  ghost predicate MarkedInv(users: seq<UserRow>, rows: seq<TokenRow>, x: Client, row: TokenRow) {
    Stored(rows, row) && row.hash == x.hash && ActiveOf(users, row.userId) == Some(true) && Usable(row, true, x.now)
  }

  /** Two transactions never hold tokens of the same user, nor have the same new hash or id pending. */
  ghost predicate Apart(a: Phase, b: Phase) {
    && (Holds(a) && Holds(b) ==> a.row.userId != b.row.userId)
    && (a.Inserted? && b.Inserted? ==> a.successor.id != b.successor.id && a.successor.hash != b.successor.hash)
  }

  ghost predicate IDsBelow(rows: seq<TokenRow>, nextId: int) {
    forall i :: 0 <= i < |rows| ==> rows[i].id < nextId
  }

  ghost predicate Inv(users: seq<UserRow>, start: seq<TokenRow>, w: World) {
    && IDsBelow(w.rows, w.nextId) && w.users == UsersAfter(users, w.history)
    && Serial(start, users, w.history) && Replay(start, users, w.history) == w.rows
    && (forall c :: 0 <= c < |w.clients| ==> ClientInv(w.users, w.rows, w.nextId, w.clients[c]))
    && (forall c, d :: 0 <= c < d < |w.clients| ==> Apart(w.clients[c].phase, w.clients[d].phase))
  }

  // ---------------------------------------------------------------- steps on the serial order

  lemma {:induction false} SerialExtended(start: seq<TokenRow>, users: seq<UserRow>, history: seq<Entry>, e: Entry)
    requires Serial(start, users, history)
    requires e.Atomic? ==>
               && Draws(Replay(start, users, history), e.op)
               && e.verdict == VerdictOf(Replay(start, users, history), UsersAfter(users, history), e.op)
    ensures Serial(start, users, history + [e])
    ensures Replay(start, users, history + [e]) ==
              ApplyEntry(Replay(start, users, history), UsersAfter(users, history), e)
    ensures !e.SetActive? ==> UsersAfter(users, history + [e]) == UsersAfter(users, history)
    ensures e.SetActive? ==>
              UsersAfter(users, history + [e]) == WithActive(UsersAfter(users, history), e.userId, e.active)
  {
    var longer := history + [e];
    assert longer[..|history|] == history;
    forall n | 0 <= n < |longer| ensures SerialAt(start, users, longer, n) {
      if n < |history| {
        assert SerialAt(start, users, history, n);
        assert longer[..n] == history[..n];
      }
    }
  }

  /** The table of any serial execution is sound. */
  lemma {:induction false} SerialSound(start: seq<TokenRow>, users: seq<UserRow>, history: seq<Entry>)
    requires Sound(start) && Serial(start, users, history)
    ensures Sound(Replay(start, users, history))
  {
    if history != [] {
      var n := |history| - 1;
      var before := history[..n];
      forall m | 0 <= m < n ensures SerialAt(start, users, before, m) {
        assert SerialAt(start, users, history, m);
        assert before[..m] == history[..m];
      }
      SerialSound(start, users, before);
      assert SerialAt(start, users, history, n);
      var rows := Replay(start, users, before);
      if history[n].Atomic? {
        StepSound(rows, UsersAfter(users, before), history[n].op);
      } else if history[n].RevokeIDs? {
        RevokingSound(rows, RevokeRows(rows, history[n].targets, history[n].now));
      }
    }
  }

  // ---------------------------------------------------------------- what one step means for the other clients

  /** The rows that matter to a transaction holding this row: its own row is untouched, no row joins its family. */
  ghost predicate SameFor(rows: seq<TokenRow>, rows': seq<TokenRow>, row: TokenRow) {
    && |rows| <= |rows'|
    && (forall i :: 0 <= i < |rows| ==>
        rows'[i].id == rows[i].id && rows'[i].hash == rows[i].hash && rows'[i].family == rows[i].family)
    && (forall i :: 0 <= i < |rows| && rows[i].id == row.id ==> rows'[i] == rows[i])
    && (forall i :: |rows| <= i < |rows'| ==> rows'[i].family != row.family)
  }

  lemma {:induction false} StoredKept(rows: seq<TokenRow>, rows': seq<TokenRow>, row: TokenRow)
    requires Stored(rows, row) && SameFor(rows, rows', row)
    ensures Stored(rows', row) && FamilyIDs(rows', row.family) == FamilyIDs(rows, row.family)
  {
    var k := IndexOf(rows, row.hash);
    var j := IndexOf(rows', row.hash);
    assert rows'[k].hash == row.hash;
    assert j <= k && rows'[j].hash == rows[j].hash;
    forall id ensures id in FamilyIDs(rows', row.family) <==> id in FamilyIDs(rows, row.family) {
      if id in FamilyIDs(rows', row.family) {
        var i :| 0 <= i < |rows'| && rows'[i].family == row.family && rows'[i].id == id;
        assert i < |rows| && rows[i].family == row.family && rows[i].id == id;
      }
      if id in FamilyIDs(rows, row.family) {
        var i :| 0 <= i < |rows| && rows[i].family == row.family && rows[i].id == id;
        assert rows'[i].family == row.family && rows'[i].id == id;
      }
    }
  }

  lemma {:induction false} ClientKept(users: seq<UserRow>, rows: seq<TokenRow>, rows': seq<TokenRow>, nextId: int,
                                      nextId': int, x: Client)
    requires ClientInv(users, rows, nextId, x) && nextId <= nextId'
    requires Holds(x.phase) ==> SameFor(rows, rows', x.phase.row)
    requires x.phase.Inserted? ==>
               forall i :: |rows| <= i < |rows'| ==> rows'[i].id != x.phase.successor.id && rows'[i].hash != x.newHash
    ensures ClientInv(users, rows', nextId', x)
  {
    if Holds(x.phase) {
      StoredKept(rows, rows', x.phase.row);
    }
    if x.phase.Inserted? {
      var j := IndexOf(rows', x.newHash);
      assert j < |rows| ==> rows'[j].hash == rows[j].hash;
    }
  }

  /** One client moved on and the others were kept: the invariant holds again. */
  lemma {:induction false} InvAfter(users: seq<UserRow>, start: seq<TokenRow>, w: World, w': World, c: nat)
    requires Inv(users, start, w) && c < |w.clients| && |w'.clients| == |w.clients|
    requires forall d :: 0 <= d < |w.clients| && d != c ==> w'.clients[d] == w.clients[d]
    requires IDsBelow(w'.rows, w'.nextId) && w'.users == UsersAfter(users, w'.history)
    requires Serial(start, users, w'.history) && Replay(start, users, w'.history) == w'.rows
    requires forall d :: 0 <= d < |w.clients| ==> ClientInv(w'.users, w'.rows, w'.nextId, w'.clients[d])
    requires forall d :: 0 <= d < |w.clients| && d != c ==> Apart(w'.clients[c].phase, w'.clients[d].phase)
    ensures Inv(users, start, w')
  {
    forall d, e | 0 <= d < e < |w'.clients| ensures Apart(w'.clients[d].phase, w'.clients[e].phase) {
      if d != c && e != c {
        assert Apart(w.clients[d].phase, w.clients[e].phase);
      } else if d == c {
        assert Apart(w'.clients[c].phase, w'.clients[e].phase);
      } else {
        assert Apart(w'.clients[c].phase, w'.clients[d].phase);
      }
    }
  }

  /** A client ends without a committed change. */
  lemma {:induction false} EndsUnchanged(users: seq<UserRow>, start: seq<TokenRow>, w: World, c: nat, verdict: Verdict,
                                         nextId': int)
    requires Inv(users, start, w) && c < |w.clients| && nextId' >= w.nextId
    requires var op := Call(w.clients[c], w.nextId);
             Apply(w.rows, w.users, op) == w.rows && VerdictOf(w.rows, w.users, op) == Some(verdict)
    ensures Inv(users, start, End(w.(nextId := nextId'), c, w.nextId, verdict))
  {
    var w' := End(w.(nextId := nextId'), c, w.nextId, verdict);
    SerialExtended(start, users, w.history, Atomic(Some(c), Call(w.clients[c], w.nextId), Some(verdict)));
    forall d | 0 <= d < |w.clients| ensures ClientInv(w'.users, w'.rows, w'.nextId, w'.clients[d]) {
      assert ClientInv(w.users, w.rows, w.nextId, w.clients[d]);
    }
    InvAfter(users, start, w, w', c);
  }

  /** A client moves to its next phase without a committed change. */
  lemma {:induction false} Moves(users: seq<UserRow>, start: seq<TokenRow>, w: World, c: nat, p: Phase, nextId': int)
    requires Inv(users, start, w) && c < |w.clients| && nextId' >= w.nextId
    requires ClientInv(w.users, w.rows, nextId', w.clients[c].(phase := p))
    requires forall d :: 0 <= d < |w.clients| && d != c ==> Apart(p, w.clients[d].phase)
    ensures Inv(users, start, At(w.(nextId := nextId'), c, p))
  {
    var w' := At(w.(nextId := nextId'), c, p);
    forall d | 0 <= d < |w.clients| ensures ClientInv(w'.users, w'.rows, w'.nextId, w'.clients[d]) {
      assert ClientInv(w.users, w.rows, w.nextId, w.clients[d]);
    }
    InvAfter(users, start, w, w', c);
  }

  lemma {:induction false} SelectStep(users: seq<UserRow>, start: seq<TokenRow>, w: World, c: nat)
    requires Inv(users, start, w) && Enabled(w, Select(c))
    ensures Inv(users, start, SelectForUpdate(w, c))
  {
    var x := w.clients[c];
    var k := IndexOf(w.rows, x.hash);
    if k == |w.rows| || ActiveOf(w.users, w.rows[k].userId).None? {
      EndsUnchanged(users, start, w, c, Refused(InvalidRefreshToken), w.nextId);
    } else {
      forall d | 0 <= d < |w.clients| && d != c
        ensures Apart(Holding(w.rows[k], ActiveOf(w.users, w.rows[k].userId).value), w.clients[d].phase)
      {
        assert !UserLocked(w, w.rows[k].userId);
      }
      Moves(users, start, w, c, Holding(w.rows[k], ActiveOf(w.users, w.rows[k].userId).value), w.nextId);
    }
  }

  /** The row read under the lock is still the committed row, so the atomic call takes the same branch. */
  lemma {:induction false} SameBranch(users: seq<UserRow>, rows: seq<TokenRow>, nextId: int, x: Client, id: int)
    requires ClientInv(users, rows, nextId, x) && x.phase.Holding?
    requires x.phase.row.usedAt.None? && !Usable(x.phase.row, x.phase.active, x.now)
    ensures Apply(rows, users, Call(x, id)) == rows
    ensures VerdictOf(rows, users, Call(x, id)) == Some(Refused(InvalidRefreshToken))
  {
  }

  lemma {:induction false} DecideStep(users: seq<UserRow>, start: seq<TokenRow>, w: World, c: nat)
    requires Inv(users, start, w) && Enabled(w, Decide(c))
    ensures Inv(users, start, CheckAndUpdate(w, c))
  {
    var x := w.clients[c];
    assert ClientInv(w.users, w.rows, w.nextId, x);
    var row := x.phase.row;
    forall d | 0 <= d < |w.clients| && d != c
      ensures Apart(Revoking(row, FamilyIDs(w.rows, row.family)), w.clients[d].phase)
      ensures Apart(Marked(row), w.clients[d].phase)
    {
      assert Apart(w.clients[if c < d then c else d].phase, w.clients[if c < d then d else c].phase);
    }
    if row.usedAt.Some? {
      Moves(users, start, w, c, Revoking(row, FamilyIDs(w.rows, row.family)), w.nextId);
    } else if Usable(row, x.phase.active, x.now) {
      Moves(users, start, w, c, Marked(row), w.nextId);
    } else {
      SameBranch(w.users, w.rows, w.nextId, x, w.nextId);
      EndsUnchanged(users, start, w, c, Refused(InvalidRefreshToken), w.nextId);
    }
  }

  lemma {:induction false} DuplicateRefused(users: seq<UserRow>, rows: seq<TokenRow>, x: Client, id: int)
    requires x.phase.Marked? && MarkedInv(users, rows, x, x.phase.row) && IndexOf(rows, x.newHash) < |rows|
    ensures Apply(rows, users, Call(x, id)) == rows
    ensures VerdictOf(rows, users, Call(x, id)) == Some(Refused(DatabaseError))
  {
    SameHashes(rows, MarkUsed(rows, x.phase.row.id, x.now), x.newHash);
  }

  /** A drawn id is new and a hash that no one has pending is new, so the pending rows stay apart. */
  lemma {:induction false} InsertedApart(users: seq<UserRow>, start: seq<TokenRow>, w: World, c: nat, d: nat, p: Phase)
    requires Inv(users, start, w) && c < |w.clients| && d < |w.clients| && c != d
    requires w.clients[c].phase.Marked? && p.Inserted? && p.row == w.clients[c].phase.row
    requires p.successor.id == w.nextId && !HashPending(w, p.successor.hash)
    ensures Apart(p, w.clients[d].phase)
  {
    assert Apart(w.clients[if c < d then c else d].phase, w.clients[if c < d then d else c].phase);
    assert ClientInv(w.users, w.rows, w.nextId, w.clients[d]);
  }

  lemma {:induction false} InsertStep(users: seq<UserRow>, start: seq<TokenRow>, w: World, c: nat)
    requires Inv(users, start, w) && Enabled(w, InsertSuccessor(c))
    ensures Inv(users, start, InsertRow(w, c))
  {
    if IndexOf(w.rows, w.clients[c].newHash) < |w.rows| {
      InsertRefused(users, start, w, c);
    } else {
      InsertAccepted(users, start, w, c);
    }
  }

  lemma {:induction false} InsertRefused(users: seq<UserRow>, start: seq<TokenRow>, w: World, c: nat)
    requires Inv(users, start, w) && Enabled(w, InsertSuccessor(c))
    requires IndexOf(w.rows, w.clients[c].newHash) < |w.rows|
    ensures Inv(users, start, InsertRow(w, c))
  {
    assert ClientInv(w.users, w.rows, w.nextId, w.clients[c]);
    assert InsertRow(w, c) == End(w.(nextId := w.nextId + 1), c, w.nextId, Refused(DatabaseError));
    DuplicateRefused(w.users, w.rows, w.clients[c], w.nextId);
    EndsUnchanged(users, start, w, c, Refused(DatabaseError), w.nextId + 1);
  }

  lemma {:induction false} InsertAccepted(users: seq<UserRow>, start: seq<TokenRow>, w: World, c: nat)
    requires Inv(users, start, w) && Enabled(w, InsertSuccessor(c))
    requires IndexOf(w.rows, w.clients[c].newHash) == |w.rows|
    ensures Inv(users, start, InsertRow(w, c))
  {
    var x := w.clients[c];
    var p := Inserted(x.phase.row, Successor(w, x));
    forall d | 0 <= d < |w.clients| && d != c ensures Apart(p, w.clients[d].phase) {
      InsertedApart(users, start, w, c, d, p);
    }
    MarkedInserted(w, x);
    Moves(users, start, w, c, p, w.nextId + 1);
  }

  lemma {:induction false} MarkedInserted(w: World, x: Client)
    requires x.phase.Marked? && ClientInv(w.users, w.rows, w.nextId, x)
    requires IDsBelow(w.rows, w.nextId) && IndexOf(w.rows, x.newHash) == |w.rows|
    ensures ClientInv(w.users, w.rows, w.nextId + 1, x.(phase := Inserted(x.phase.row, Successor(w, x))))
  {
  }

  lemma {:induction false} AbortStep(users: seq<UserRow>, start: seq<TokenRow>, w: World, c: nat)
    requires Inv(users, start, w) && Enabled(w, Abort(c))
    ensures Inv(users, start, At(w, c, Ended(None)))
  {
    Moves(users, start, w, c, Ended(None), w.nextId);
  }

  // ---------------------------------------------------------------- commits

  /** The ids collected by the family UPDATE are still the ids of the family. */
  lemma {:induction false} RevokedByIDs(rows: seq<TokenRow>, family: string, now: Time)
    requires UniqueKeys(rows)
    ensures RevokeRows(rows, FamilyIDs(rows, family), now) == RevokeFamily(rows, family, now)
  {
    var ids := FamilyIDs(rows, family);
    forall i | 0 <= i < |rows| ensures rows[i].id in ids <==> rows[i].family == family {
      if rows[i].id in ids {
        var j :| 0 <= j < |rows| && rows[j].family == family && rows[j].id == rows[i].id;
        assert i == j;
      }
    }
  }

  /** The atomic call that a committing client stands for. */
  function CommittedCall(w: World, x: Client): Op {
    Call(x, if x.phase.Inserted? then x.phase.successor.id else w.nextId)
  }

  function CommittedVerdict(x: Client): Verdict {
    if x.phase.Inserted? then Rotated(x.phase.row.userId) else Refused(RefreshReuse)
  }

  /** At its commit, the client's private writes give exactly the table and the verdict of the atomic rotation. */
  lemma {:induction false} CommitIsAtomic(w: World, x: Client)
    requires UniqueKeys(w.rows) && ClientInv(w.users, w.rows, w.nextId, x) && (x.phase.Revoking? || x.phase.Inserted?)
    ensures Committed(w.rows, x) == Apply(w.rows, w.users, CommittedCall(w, x))
    ensures VerdictOf(w.rows, w.users, CommittedCall(w, x)) == Some(CommittedVerdict(x))
  {
    if x.phase.Revoking? {
      RevokedByIDs(w.rows, x.phase.row.family, x.now);
    } else {
      SameHashes(w.rows, MarkUsed(w.rows, x.phase.row.id, x.now), x.newHash);
    }
  }

  lemma {:induction false} OtherUserOtherFamily(rows: seq<TokenRow>, a: TokenRow, b: TokenRow)
    requires UniqueKeys(rows) && OneUser(rows) && Stored(rows, a) && Stored(rows, b) && a.userId != b.userId
    ensures a.family != b.family && a.id != b.id
  {
    var k := IndexOf(rows, a.hash);
    var n := IndexOf(rows, b.hash);
    assert rows[k] == a && rows[n] == b;
  }

  lemma {:induction false} RevocationElsewhere(rows: seq<TokenRow>, family: string, now: Time, row: TokenRow)
    requires UniqueKeys(rows) && Stored(rows, row) && row.family != family
    ensures SameFor(rows, RevokeFamily(rows, family, now), row)
  {
    var n := IndexOf(rows, row.hash);
    assert forall i :: 0 <= i < |rows| && rows[i].id == row.id ==> i == n;
  }

  lemma {:induction false} RotationElsewhere(rows: seq<TokenRow>, spent: TokenRow, successor: TokenRow, now: Time,
                                             row: TokenRow)
    requires spent.id != row.id && successor.family != row.family
    ensures SameFor(rows, MarkUsed(rows, spent.id, now) + [successor], row)
  {
  }

  /** A transaction that holds another user's token is not affected by a commit. */
  lemma {:induction false} CommitLeavesOthers(users: seq<UserRow>, rows: seq<TokenRow>, nextId: int, x: Client,
                                              y: Client)
    requires UniqueKeys(rows) && OneUser(rows) && ClientInv(users, rows, nextId, x) && ClientInv(users, rows, nextId, y)
    requires (x.phase.Revoking? || x.phase.Inserted?) && Apart(x.phase, y.phase)
    ensures ClientInv(users, Committed(rows, x), nextId, y)
  {
    if Holds(y.phase) {
      OtherUserOtherFamily(rows, x.phase.row, y.phase.row);
      if x.phase.Revoking? {
        RevokedByIDs(rows, x.phase.row.family, x.now);
        RevocationElsewhere(rows, x.phase.row.family, x.now, y.phase.row);
      } else {
        RotationElsewhere(rows, x.phase.row, x.phase.successor, x.now, y.phase.row);
      }
      ClientKept(users, rows, Committed(rows, x), nextId, nextId, y);
    }
  }

  lemma {:induction false} CommitClients(users: seq<UserRow>, start: seq<TokenRow>, w: World, c: nat, d: nat)
    requires Inv(users, start, w) && UniqueKeys(w.rows) && OneUser(w.rows) && Enabled(w, Commit(c))
    requires d < |w.clients| && d != c
    ensures ClientInv(w.users, Committed(w.rows, w.clients[c]), w.nextId, w.clients[d])
  {
    assert Apart(w.clients[if c < d then c else d].phase, w.clients[if c < d then d else c].phase);
    assert ClientInv(w.users, w.rows, w.nextId, w.clients[c]) && ClientInv(w.users, w.rows, w.nextId, w.clients[d]);
    CommitLeavesOthers(w.users, w.rows, w.nextId, w.clients[c], w.clients[d]);
  }

  lemma {:induction false} CommitHistory(users: seq<UserRow>, start: seq<TokenRow>, w: World, c: nat)
    requires Inv(users, start, w) && UniqueKeys(w.rows) && Enabled(w, Commit(c))
    ensures var w' := CommitWrites(w, c);
            && Serial(start, users, w'.history) && Replay(start, users, w'.history) == w'.rows
            && w'.users == UsersAfter(users, w'.history)
  {
    var x := w.clients[c];
    var w' := CommitWrites(w, c);
    var e := Atomic(Some(c), CommittedCall(w, x), Some(CommittedVerdict(x)));
    assert w'.history == w.history + [e] && w'.rows == Committed(w.rows, x);
    CommitDraws(users, start, w, c);
    SerialExtended(start, users, w.history, e);
  }

  lemma {:induction false} CommitDraws(users: seq<UserRow>, start: seq<TokenRow>, w: World, c: nat)
    requires Inv(users, start, w) && UniqueKeys(w.rows) && Enabled(w, Commit(c))
    ensures var x := w.clients[c];
            && Draws(w.rows, CommittedCall(w, x))
            && VerdictOf(w.rows, w.users, CommittedCall(w, x)) == Some(CommittedVerdict(x))
            && Committed(w.rows, x) == Apply(w.rows, w.users, CommittedCall(w, x))
            && IDsBelow(Committed(w.rows, x), w.nextId)
            && ClientInv(w.users, Committed(w.rows, x), w.nextId, CommitWrites(w, c).clients[c])
  {
    assert ClientInv(w.users, w.rows, w.nextId, w.clients[c]);
    CommitIsAtomic(w, w.clients[c]);
  }

  lemma {:induction false} CommitStep(users: seq<UserRow>, start: seq<TokenRow>, w: World, c: nat)
    requires Inv(users, start, w) && Sound(start) && Enabled(w, Commit(c))
    ensures Inv(users, start, CommitWrites(w, c))
  {
    var w' := CommitWrites(w, c);
    SerialSound(start, users, w.history);
    CommitHistory(users, start, w, c);
    CommitDraws(users, start, w, c);
    assert w'.rows == Committed(w.rows, w.clients[c]) && w'.nextId == w.nextId;
    forall d | 0 <= d < |w.clients| ensures ClientInv(w'.users, w'.rows, w'.nextId, w'.clients[d]) {
      if d != c {
        CommitClients(users, start, w, c, d);
      }
    }
    InvAfter(users, start, w, w', c);
  }

  // ---------------------------------------------------------------- logins and logouts

  lemma {:induction false} LoginStep(users: seq<UserRow>, start: seq<TokenRow>, w: World, row: TokenRow)
    requires Inv(users, start, w) && Sound(start) && Enabled(w, Login(row))
    ensures Inv(users, start, InsertLogin(w, row))
  {
    var w' := InsertLogin(w, row);
    SerialSound(start, users, w.history);
    assert IdUnknown(w.rows, row.id);
    SerialExtended(start, users, w.history, Atomic(None, CreateOp(row), None));
    forall d | 0 <= d < |w.clients| ensures ClientInv(w'.users, w'.rows, w'.nextId, w.clients[d]) {
      var y := w.clients[d];
      assert ClientInv(w.users, w.rows, w.nextId, y);
      assert !HashPending(w, row.hash);
      ClientKept(w.users, w.rows, w'.rows, w.nextId, w'.nextId, y);
    }
  }

  lemma {:induction false} LogoutStep(users: seq<UserRow>, start: seq<TokenRow>, w: World, l: nat)
    requires Inv(users, start, w) && Enabled(w, LogoutFinish(l))
    ensures Inv(users, start, RevokeSnapshot(w, l))
  {
    LogoutHistory(users, start, w, l);
    forall d | 0 <= d < |w.clients| ensures ClientInv(w.users, RevokeSnapshot(w, l).rows, w.nextId, w.clients[d]) {
      LogoutClient(users, start, w, l, d);
    }
  }

  lemma {:induction false} LogoutHistory(users: seq<UserRow>, start: seq<TokenRow>, w: World, l: nat)
    requires Serial(start, users, w.history) && Replay(start, users, w.history) == w.rows && IDsBelow(w.rows, w.nextId)
    requires l < |w.logouts| && w.logouts[l].Snapshot? && w.users == UsersAfter(users, w.history)
    ensures var w' := RevokeSnapshot(w, l);
            && Serial(start, users, w'.history) && Replay(start, users, w'.history) == w'.rows
            && IDsBelow(w'.rows, w'.nextId) && w'.users == UsersAfter(users, w'.history)
  {
    SerialExtended(start, users, w.history, RevokeIDs(w.logouts[l].targets, w.logouts[l].now));
  }

  lemma {:induction false} LogoutClient(users: seq<UserRow>, start: seq<TokenRow>, w: World, l: nat, d: nat)
    requires Inv(users, start, w) && Enabled(w, LogoutFinish(l)) && d < |w.clients|
    ensures ClientInv(w.users, RevokeSnapshot(w, l).rows, w.nextId, w.clients[d])
  {
    assert ClientInv(w.users, w.rows, w.nextId, w.clients[d]);
    assert Holds(w.clients[d].phase) ==> TokenLocked(w, w.clients[d].phase.row.id);
    LogoutLeaves(w.users, w.rows, w.logouts[l].targets, w.logouts[l].now, w.nextId, w.clients[d]);
  }

  /** A logout waits for every locked row of its snapshot, so it never touches a row that a transaction holds. */
  lemma {:induction false} LogoutLeaves(users: seq<UserRow>, rows: seq<TokenRow>, targets: set<int>, now: Time,
                                        nextId: int, y: Client)
    requires ClientInv(users, rows, nextId, y) && (Holds(y.phase) ==> y.phase.row.id !in targets)
    ensures ClientInv(users, RevokeRows(rows, targets, now), nextId, y)
  {
    ClientKept(users, rows, RevokeRows(rows, targets, now), nextId, nextId, y);
  }

  // ---------------------------------------------------------------- changes of users

  lemma {:induction false} WithActiveExact(users: seq<UserRow>, userId: int, active: bool, id: int)
    ensures ActiveOf(WithActive(users, userId, active), id) ==
            if id == userId && ActiveOf(users, id).Some? then Some(active) else ActiveOf(users, id)
  {
    if users != [] {
      WithActiveExact(users[1..], userId, active, id);
    }
  }

  /** No user comes or goes. */
  lemma {:induction false} SameUsers(users: seq<UserRow>, history: seq<Entry>, id: int)
    ensures ActiveOf(UsersAfter(users, history), id).Some? <==> ActiveOf(users, id).Some?
  {
    if history != [] {
      var front := history[..|history| - 1];
      SameUsers(users, front, id);
      var last := history[|history| - 1];
      if last.SetActive? {
        WithActiveExact(UsersAfter(users, front), last.userId, last.active, id);
      }
    }
  }

  /** A change waits for the user's lock, so the flag that a transaction read is still the user's flag. */
  lemma {:induction false} ChangeUserStep(users: seq<UserRow>, start: seq<TokenRow>, w: World, userId: int,
                                          active: bool)
    requires Inv(users, start, w) && Enabled(w, SetUserActive(userId, active))
    ensures Inv(users, start, ChangeUser(w, userId, active))
  {
    var w' := ChangeUser(w, userId, active);
    SerialExtended(start, users, w.history, SetActive(userId, active));
    forall d | 0 <= d < |w.clients| ensures ClientInv(w'.users, w'.rows, w'.nextId, w'.clients[d]) {
      var x := w.clients[d];
      assert ClientInv(w.users, w.rows, w.nextId, x);
      if Holds(x.phase) {
        assert x.phase.row.userId != userId;
        WithActiveExact(w.users, userId, active, x.phase.row.userId);
      }
    }
  }

  // ---------------------------------------------------------------- every execution

  ghost predicate Initial(users: seq<UserRow>, start: seq<TokenRow>, w: World) {
    && Sound(start) && w.users == users && w.rows == start && IDsBelow(start, w.nextId) && w.history == []
    && (forall c :: 0 <= c < |w.clients| ==> w.clients[c].phase.Ready?)
  }

  ghost predicate Execution(w: World, actions: seq<Action>)
    decreases |actions|
  {
    actions == [] || (Enabled(w, actions[0]) && Execution(Step(w, actions[0]), actions[1..]))
  }

  ghost function Run(w: World, actions: seq<Action>): World
    requires Execution(w, actions)
    decreases |actions|
  {
    if actions == [] then w else Run(Step(w, actions[0]), actions[1..])
  }

  lemma {:induction false} StepInv(users: seq<UserRow>, start: seq<TokenRow>, w: World, a: Action)
    requires Sound(start) && Inv(users, start, w) && Enabled(w, a)
    ensures Inv(users, start, Step(w, a))
  {
    match a
    case Select(c) => SelectStep(users, start, w, c);
    case Decide(c) => DecideStep(users, start, w, c);
    case InsertSuccessor(c) => InsertStep(users, start, w, c);
    case Commit(c) => CommitStep(users, start, w, c);
    case Abort(c) => AbortStep(users, start, w, c);
    case Login(row) => LoginStep(users, start, w, row);
    case LogoutStart(l) =>
    case LogoutFinish(l) => LogoutStep(users, start, w, l);
    case SetUserActive(userId, active) => ChangeUserStep(users, start, w, userId, active);
  }

  lemma {:induction false} RunInv(users: seq<UserRow>, start: seq<TokenRow>, w: World, actions: seq<Action>)
    requires Sound(start) && Inv(users, start, w) && Execution(w, actions)
    ensures Inv(users, start, Run(w, actions))
    decreases |actions|
  {
    if actions != [] {
      StepInv(users, start, w, actions[0]);
      RunInv(users, start, Step(w, actions[0]), actions[1..]);
    }
  }

  /** Every interleaving equals a serial execution: the committed table and the users' flags are what the operations of
      the history give one after the other, and every rotation of the history has the verdict of the atomic rotation at
      its place. A logout stands in the history as the revocation of the rows that it read. */
  lemma {:induction false} Serializable(users: seq<UserRow>, start: seq<TokenRow>, w: World, actions: seq<Action>)
    requires Initial(users, start, w) && Execution(w, actions)
    ensures var w' := Run(w, actions);
            && Serial(start, users, w'.history) && Replay(start, users, w'.history) == w'.rows
            && UsersAfter(users, w'.history) == w'.users && Sound(w'.rows)
  {
    RunInv(users, start, w, actions);
    SerialSound(start, users, Run(w, actions).history);
  }
}

/** Logouts among concurrent rotations: a logout takes no lock before it reads the ids of the family it revokes. */
module LogoutRaces {
  import opened Common
  import opened Directory
  import opened RefreshTokens
  import opened RefreshHistory
  import opened ConcurrentRotation
  import opened RotationRaces

  // ---------------------------------------------------------------- between the two halves of a logout

  /** The history only grows. */
  ghost predicate Extends(shorter: seq<Entry>, longer: seq<Entry>) {
    |shorter| <= |longer| && longer[..|shorter|] == shorter
  }

  lemma {:induction false} StepExtends(w: World, a: Action)
    requires Enabled(w, a)
    ensures Extends(w.history, Step(w, a).history)
  {
  }

  lemma {:induction false} RunExtends(w: World, actions: seq<Action>)
    requires Execution(w, actions)
    ensures Extends(w.history, Run(w, actions).history)
    decreases |actions|
  {
    if actions != [] {
      StepExtends(w, actions[0]);
      var next := Step(w, actions[0]);
      RunExtends(next, actions[1..]);
      var end := Run(next, actions[1..]);
      assert end.history[..|w.history|] == end.history[..|next.history|][..|w.history|];
    }
  }

  /** A logout that has read its family keeps what it read until it finishes. */
  lemma {:induction false} StepKeepsSnapshot(w: World, a: Action, l: nat)
    requires Enabled(w, a) && l < |w.logouts| && (w.logouts[l].Snapshot? || w.logouts[l].LoggedOut?)
    ensures var w' := Step(w, a);
            l < |w'.logouts| && (w'.logouts[l] == w.logouts[l] || w'.logouts[l].LoggedOut?)
  {
  }

  lemma {:induction false} RunBetween(w: World, actions: seq<Action>, l: nat)
    requires Execution(w, actions) && l < |w.logouts| && (w.logouts[l].Snapshot? || w.logouts[l].LoggedOut?)
    ensures var w' := Run(w, actions);
            && Extends(w.history, w'.history)
            && l < |w'.logouts| && (w'.logouts[l] == w.logouts[l] || w'.logouts[l].LoggedOut?)
    decreases |actions|
  {
    RunExtends(w, actions);
    if actions != [] {
      StepKeepsSnapshot(w, actions[0], l);
      RunBetween(Step(w, actions[0]), actions[1..], l);
    }
  }

  /** Some execution from an initial world leads here. */
  ghost predicate Reached(users: seq<UserRow>, start: seq<TokenRow>, w: World) {
    exists first, actions :: ReachedBy(users, start, first, actions, w)
  }

  ghost predicate ReachedBy(users: seq<UserRow>, start: seq<TokenRow>, first: World, actions: seq<Action>, w: World) {
    Initial(users, start, first) && Execution(first, actions) && Run(first, actions) == w
  }

  lemma {:induction false} ReachedInv(users: seq<UserRow>, start: seq<TokenRow>, w: World)
    requires Reached(users, start, w)
    ensures Sound(start) && Inv(users, start, w)
  {
    var first, actions :| ReachedBy(users, start, first, actions, w);
    RunInv(users, start, first, actions);
  }

  /** A logout over an execution: it starts in w0, other steps lead on, and there it finishes. */
  ghost predicate LogoutRun(users: seq<UserRow>, start: seq<TokenRow>, w0: World, between: seq<Action>, l: nat) {
    && Reached(users, start, w0) && Enabled(w0, LogoutStart(l))
    && Execution(Step(w0, LogoutStart(l)), between)
    && Enabled(Run(Step(w0, LogoutStart(l)), between), LogoutFinish(l))
  }

  ghost function BeforeFinish(users: seq<UserRow>, start: seq<TokenRow>, w0: World, between: seq<Action>, l: nat): World
    requires LogoutRun(users, start, w0, between, l)
  {
    Run(Step(w0, LogoutStart(l)), between)
  }

  /** The rows that joined the family while the logout ran. */
  ghost predicate Joined(rows0: seq<TokenRow>, rows1: seq<TokenRow>, family: string, i: int) {
    |rows0| <= i < |rows1| && rows1[i].family == family
  }

  /** What holds when the logout finishes: the table has kept all rows, and the targets are the family as it was. */
  lemma {:induction false} AtFinish(users: seq<UserRow>, start: seq<TokenRow>, w0: World, between: seq<Action>, l: nat)
    requires LogoutRun(users, start, w0, between, l)
    ensures var w1 := BeforeFinish(users, start, w0, between, l);
            var k := IndexOf(w0.rows, w0.logouts[l].hash);
            && Sound(start) && Inv(users, start, w0) && Inv(users, start, w1) && Extends(w0.history, w1.history)
            && UniqueKeys(w0.rows) && UniqueKeys(w1.rows) && Keeps(w0.rows, w1.rows)
            && w1.logouts[l] ==
                 Snapshot(w0.logouts[l].hash, if k == |w0.rows| then {} else FamilyIDs(w0.rows, w0.rows[k].family),
                                         w0.logouts[l].now)
  {
    var started := Step(w0, LogoutStart(l));
    var w1 := Run(started, between);
    ReachedInv(users, start, w0);
    StepInv(users, start, w0, LogoutStart(l));
    RunInv(users, start, started, between);
    RunBetween(started, between, l);
    SerialSound(start, users, w0.history);
    SerialSound(start, users, w1.history);
    ReplayKeeps(start, users, w1.history, |w0.history|, |w1.history|);
    assert w1.history[..|w1.history|] == w1.history;
  }

  /** Which ids of the later table the targets are. */
  lemma {:induction false} TargetsAre(rows0: seq<TokenRow>, rows1: seq<TokenRow>, family: string, i: nat)
    requires UniqueKeys(rows1) && Keeps(rows0, rows1) && i < |rows1|
    ensures rows1[i].id in FamilyIDs(rows0, family) <==> i < |rows0| && rows1[i].family == family
  {
    if rows1[i].id in FamilyIDs(rows0, family) {
      var j :| 0 <= j < |rows0| && rows0[j].family == family && rows0[j].id == rows1[i].id;
      assert RowKeeps(rows0[j], rows1[j]);
    }
    if i < |rows0| {
      assert RowKeeps(rows0[i], rows1[i]);
    }
  }

  /** The three ways to say that a logout of the family did all its work. */
  lemma {:induction false} RevokingOldRows(rows0: seq<TokenRow>, rows1: seq<TokenRow>, family: string, now: Time)
    requires UniqueKeys(rows1) && Keeps(rows0, rows1)
    ensures var after := RevokeRows(rows1, FamilyIDs(rows0, family), now);
            var allRevoked := forall i :: Joined(rows0, rows1, family, i) ==> rows1[i].revokedAt.Some?;
            && (FamilyRevoked(after, family) <==> allRevoked)
            && (after == RevokeFamily(rows1, family, now) <==> allRevoked)
  {
    var after := RevokeRows(rows1, FamilyIDs(rows0, family), now);
    forall i | 0 <= i < |rows1|
      ensures after[i] == if i < |rows0| && rows1[i].family == family then Revoked(rows1[i], now) else rows1[i]
    {
      TargetsAre(rows0, rows1, family, i);
    }
    if FamilyRevoked(after, family) {
      forall i | Joined(rows0, rows1, family, i) ensures rows1[i].revokedAt.Some? {
        assert after[i].revokedAt.Some?;
      }
    }
    if after == RevokeFamily(rows1, family, now) {
      forall i | Joined(rows0, rows1, family, i) ensures rows1[i].revokedAt.Some? {
        assert after[i] == RevokeFamily(rows1, family, now)[i];
      }
    }
    if forall i :: Joined(rows0, rows1, family, i) ==> rows1[i].revokedAt.Some? {
      forall i | 0 <= i < |rows1| ensures after[i] == RevokeFamily(rows1, family, now)[i] {
        assert Joined(rows0, rows1, family, i) ==> rows1[i].revokedAt.Some?;
      }
    }
  }

  /** Over every execution: when a logout of a stored token has finished, the token's family is revoked exactly when
      every row that joined the family after the logout read it had been revoked already; and exactly then the logout
      did what it does when nothing runs beside it. */
  lemma {:induction false} LogoutRevokesExactly(users: seq<UserRow>, start: seq<TokenRow>, w0: World,
                                                between: seq<Action>, l: nat)
    requires LogoutRun(users, start, w0, between, l) && IndexOf(w0.rows, w0.logouts[l].hash) < |w0.rows|
    ensures var w1 := BeforeFinish(users, start, w0, between, l);
            var after := Step(w1, LogoutFinish(l)).rows;
            var family := w0.rows[IndexOf(w0.rows, w0.logouts[l].hash)].family;
            var allRevoked := forall i :: Joined(w0.rows, w1.rows, family, i) ==> w1.rows[i].revokedAt.Some?;
            && (FamilyRevoked(after, family) <==> allRevoked)
            && (after == RevokeByToken(w1.rows, w0.logouts[l].hash, w0.logouts[l].now) <==> allRevoked)
  {
    var w1 := BeforeFinish(users, start, w0, between, l);
    var k := IndexOf(w0.rows, w0.logouts[l].hash);
    AtFinish(users, start, w0, between, l);
    RevokingOldRows(w0.rows, w1.rows, w0.rows[k].family, w0.logouts[l].now);
    assert RowKeeps(w0.rows[k], w1.rows[k]);
    assert IndexOf(w1.rows, w0.logouts[l].hash) == k;
  }

  /** A logout of a token that is not stored when it starts changes nothing, even if the token is stored meanwhile. */
  lemma {:induction false} UnknownLogoutChangesNothing(users: seq<UserRow>, start: seq<TokenRow>, w0: World,
                                                       between: seq<Action>, l: nat)
    requires LogoutRun(users, start, w0, between, l) && IndexOf(w0.rows, w0.logouts[l].hash) == |w0.rows|
    ensures var w1 := BeforeFinish(users, start, w0, between, l);
            Step(w1, LogoutFinish(l)).rows == w1.rows
  {
    var w1 := BeforeFinish(users, start, w0, between, l);
    hide BeforeFinish;
    hide Inv;
    AtFinish(users, start, w0, between, l);
    assert RevokeRows(w1.rows, {}, w0.logouts[l].now) == w1.rows;
  }

  // ---------------------------------------------------------------- what can overtake a logout

  /** The history's entry n is a rotation of a token of this family that succeeded. */
  ghost predicate RotatesFamily(start: seq<TokenRow>, users: seq<UserRow>, history: seq<Entry>, n: nat, family: string)
    requires n < |history|
  {
    && history[n].Atomic? && history[n].op.RotateOp? && history[n].verdict.Some? && history[n].verdict.value.Rotated?
    && var before := Replay(start, users, history[..n]);
       var k := IndexOf(before, history[n].op.hash);
       k < |before| && before[k].family == family
  }

  ghost predicate HasFamily(rows: seq<TokenRow>, family: string) { !FamilyUnknown(rows, family) }

  /** Only a successful rotation adds a row to a family that exists. */
  lemma {:induction false} EntryJoins(start: seq<TokenRow>, users: seq<UserRow>, history: seq<Entry>, n: nat,
                                      family: string)
    requires Sound(start) && Serial(start, users, history) && n < |history|
    requires HasFamily(Replay(start, users, history[..n]), family) && !RotatesFamily(start, users, history, n, family)
    ensures var before := Replay(start, users, history[..n]);
            var after := Replay(start, users, history[..n + 1]);
            HasFamily(after, family) && forall i :: !Joined(before, after, family, i)
  {
    hide Replay;
    PrefixKeys(start, users, history, n);
    assert SerialAt(start, users, history, n);
    RowsJoin(Replay(start, users, history[..n]), UsersAfter(users, history[..n]), history[n], family);
  }

  lemma {:induction false} RowsJoin(rows: seq<TokenRow>, users: seq<UserRow>, e: Entry, family: string)
    requires UniqueKeys(rows) && HasFamily(rows, family)
    requires e.Atomic? ==> Draws(rows, e.op) && e.verdict == VerdictOf(rows, users, e.op)
    requires e.Atomic? && e.op.RotateOp? && e.verdict.value.Rotated? && IndexOf(rows, e.op.hash) < |rows| ==>
               rows[IndexOf(rows, e.op.hash)].family != family
    ensures HasFamily(ApplyEntry(rows, users, e), family)
    ensures forall i :: !Joined(rows, ApplyEntry(rows, users, e), family, i)
  {
    var after := ApplyEntry(rows, users, e);
    EntryKeeps(rows, users, e);
    var k :| 0 <= k < |rows| && rows[k].family == family;
    assert RowKeeps(rows[k], after[k]);
    if e.Atomic? && e.op.RotateOp? {
      if e.verdict.value.Rotated? {
        RotateSucceeds(rows, users, e.op);
      } else {
        OtherwiseOnlyRevokes(rows, users, e.op);
      }
    }
  }

  lemma {:induction false} NoneJoins(start: seq<TokenRow>, users: seq<UserRow>, history: seq<Entry>, n: nat, m: nat,
                                     family: string)
    requires Sound(start) && Serial(start, users, history) && n <= m <= |history|
    requires HasFamily(Replay(start, users, history[..n]), family)
    requires forall j :: n <= j < m ==> !RotatesFamily(start, users, history, j, family)
    ensures var before := Replay(start, users, history[..n]);
            var after := Replay(start, users, history[..m]);
            HasFamily(after, family) && Keeps(before, after) && forall i :: !Joined(before, after, family, i)
    decreases m
  {
    hide Replay;
    hide Serial;
    hide RotatesFamily;
    ReplayKeeps(start, users, history, n, m);
    if n < m {
      NoneJoins(start, users, history, n, m - 1, family);
      EntryJoins(start, users, history, m - 1, family);
      NextKeeps(start, users, history, m - 1);
      JoinedTwice(Replay(start, users, history[..n]), Replay(start, users, history[..m - 1]),
                  Replay(start, users, history[..m]), family);
    }
  }

  lemma {:induction false} JoinedTwice(a: seq<TokenRow>, b: seq<TokenRow>, c: seq<TokenRow>, family: string)
    requires Keeps(a, b) && Keeps(b, c)
    requires forall i :: !Joined(a, b, family, i) && !Joined(b, c, family, i)
    ensures forall i :: !Joined(a, c, family, i)
  {
    forall i | |a| <= i < |c| ensures c[i].family != family {
      if i < |b| {
        assert !Joined(a, b, family, i) && RowKeeps(b[i], c[i]);
      } else {
        assert !Joined(b, c, family, i);
      }
    }
  }

  /** A logout that no successful rotation of the family overtakes is the atomic logout, and leaves the family
      revoked. */
  lemma {:induction false} UndisturbedLogout(users: seq<UserRow>, start: seq<TokenRow>, w0: World, between: seq<Action>,
                                             l: nat)
    requires LogoutRun(users, start, w0, between, l) && IndexOf(w0.rows, w0.logouts[l].hash) < |w0.rows|
    requires var w1 := BeforeFinish(users, start, w0, between, l);
             var family := w0.rows[IndexOf(w0.rows, w0.logouts[l].hash)].family;
             forall n :: |w0.history| <= n < |w1.history| ==> !RotatesFamily(start, users, w1.history, n, family)
    ensures var w1 := BeforeFinish(users, start, w0, between, l);
            var after := Step(w1, LogoutFinish(l)).rows;
            && after == RevokeByToken(w1.rows, w0.logouts[l].hash, w0.logouts[l].now)
            && FamilyRevoked(after, w0.rows[IndexOf(w0.rows, w0.logouts[l].hash)].family)
  {
    var w1 := BeforeFinish(users, start, w0, between, l);
    var k := IndexOf(w0.rows, w0.logouts[l].hash);
    AtFinish(users, start, w0, between, l);
    LogoutRevokesExactly(users, start, w0, between, l);
    assert w1.history[..|w0.history|] == w0.history && w1.history[..|w1.history|] == w1.history;
    assert HasFamily(w0.rows, w0.rows[k].family);
    NoneJoins(start, users, w1.history, |w0.history|, |w1.history|, w0.rows[k].family);
  }

  // ---------------------------------------------------------------- revoked families under concurrency

  /** No entry of the serial order changes, extends or rotates a family that is revoked. */
  lemma {:induction false} EntryFreezes(rows: seq<TokenRow>, users: seq<UserRow>, e: Entry, family: string)
    requires UniqueKeys(rows) && HasFamily(rows, family) && FamilyRevoked(rows, family)
    requires e.Atomic? ==> Draws(rows, e.op) && e.verdict == VerdictOf(rows, users, e.op)
    ensures var after := ApplyEntry(rows, users, e);
            && FamilyRevoked(after, family) && FamilyRows(after, family) == FamilyRows(rows, family)
    ensures var k := if e.Atomic? && e.op.RotateOp? then IndexOf(rows, e.op.hash) else |rows|;
            k < |rows| && rows[k].family == family ==> !e.verdict.value.Rotated?
  {
    match e
    case Atomic(_, op, _) => RevokedFamilyFrozen(rows, users, op, family);
    case RevokeIDs(targets, now) => SameFamilyRows(rows, RevokeRows(rows, targets, now), family);
    case SetActive(_, _) =>
  }

  lemma {:induction false} HistoryFreezes(start: seq<TokenRow>, users: seq<UserRow>, history: seq<Entry>, n: nat,
                                          m: nat, family: string)
    requires Sound(start) && Serial(start, users, history) && n <= m <= |history|
    requires HasFamily(Replay(start, users, history[..n]), family)
    requires FamilyRevoked(Replay(start, users, history[..n]), family)
    ensures var before := Replay(start, users, history[..n]);
            var after := Replay(start, users, history[..m]);
            && HasFamily(after, family) && FamilyRevoked(after, family)
            && FamilyRows(after, family) == FamilyRows(before, family)
    ensures forall j :: n <= j < m ==> !RotatesFamily(start, users, history, j, family)
    decreases m
  {
    hide Replay;
    hide FamilyRows;
    if n < m {
      HistoryFreezes(start, users, history, n, m - 1, family);
      PrefixKeys(start, users, history, m - 1);
      assert SerialAt(start, users, history, m - 1);
      EntryFreezes(Replay(start, users, history[..m - 1]), UsersAfter(users, history[..m - 1]), history[m - 1], family);
      NextKeeps(start, users, history, m - 1);
      StillThere(Replay(start, users, history[..m - 1]), Replay(start, users, history[..m]), family);
    }
  }

  lemma {:induction false} StillThere(rows: seq<TokenRow>, rows': seq<TokenRow>, family: string)
    requires Keeps(rows, rows') && HasFamily(rows, family)
    ensures HasFamily(rows', family)
  {
    var k :| 0 <= k < |rows| && rows[k].family == family;
    assert RowKeeps(rows[k], rows'[k]);
  }

  /** In every interleaving, once every committed row of a family is revoked, by a detected reuse or otherwise, no
      transaction that commits later changes a row of it, adds a row to it or rotates one of its tokens. */
  lemma {:induction false} RevokedForeverConcurrently(users: seq<UserRow>, start: seq<TokenRow>, w: World,
                                                      actions: seq<Action>, family: string)
    requires Reached(users, start, w) && Execution(w, actions)
    requires HasFamily(w.rows, family) && FamilyRevoked(w.rows, family)
    ensures var w' := Run(w, actions);
            && FamilyRevoked(w'.rows, family) && FamilyRows(w'.rows, family) == FamilyRows(w.rows, family)
            && |w.history| <= |w'.history|
            && forall n :: |w.history| <= n < |w'.history| ==> !RotatesFamily(start, users, w'.history, n, family)
  {
    var w' := Run(w, actions);
    ReachedInv(users, start, w);
    RunInv(users, start, w, actions);
    RunExtends(w, actions);
    assert w'.history[..|w'.history|] == w'.history && w'.history[..|w.history|] == w.history;
    HistoryFreezes(start, users, w'.history, |w.history|, |w'.history|, family);
  }

  // ---------------------------------------------------------------- a logout overtaken by a rotation

  const USERS := [UserRow(7, "user@example.com", "", true)]

  function Presented(hash: Bytes): TokenRow { NewRow(1, 7, hash, "family", 50, 0) }

  function Spent(hash: Bytes): TokenRow { Presented(hash).(usedAt := Some(9), revokedAt := Some(9)) }

  function Next(newHash: Bytes): TokenRow { NewRow(2, 7, newHash, "family", 90, 9) }

  function Rotating(hash: Bytes, newHash: Bytes, p: Phase): Client { Client(hash, newHash, 90, 9, p) }

  function Overtaking(hash: Bytes, newHash: Bytes, n: nat): World
    requires n <= 6
  {
    var row := Presented(hash);
    var done := Ended(Some(Rotated(7)));
    var p := if n == 0 then Ready else if n == 1 then Holding(row, true) else if n <= 3 then Marked(row)
             else if n == 4 then Inserted(row, Next(newHash)) else done;
    var logout := if n <= 2 then Waiting(hash, 10) else if n <= 5 then Snapshot(hash, {1}, 10) else LoggedOut;
    var rotation := Atomic(Some(0), Call(Rotating(hash, newHash, p), 2), Some(Rotated(7)));
    World(
      USERS,
      if n <= 4 then [row] else [Spent(hash), Next(newHash)],
      if n <= 3 then 2 else 3,
      [Rotating(hash, newHash, p)],
      [logout],
      if n <= 4 then [] else if n == 5 then [rotation] else [rotation, RevokeIDs({1}, 10)])
  }

  function Overtakes(n: nat): Action
    requires n < 6
  {
    if n == 0 then Select(0) else if n == 1 then Decide(0) else if n == 2 then LogoutStart(0)
    else if n == 3 then InsertSuccessor(0) else if n == 4 then Commit(0) else LogoutFinish(0)
  }

  lemma {:induction false} OvertakingStep(hash: Bytes, newHash: Bytes, n: nat)
    requires hash != newHash && n < 6
    ensures Enabled(Overtaking(hash, newHash, n), Overtakes(n))
    ensures Step(Overtaking(hash, newHash, n), Overtakes(n)) == Overtaking(hash, newHash, n + 1)
  {
    var w := Overtaking(hash, newHash, n);
    var w' := Overtaking(hash, newHash, n + 1);
    assert n <= 4 ==> IndexOf(w.rows, hash) == 0;
    assert ActiveOf(USERS, 7) == Some(true);
    if n == 2 {
      assert FamilyIDs(w.rows, "family") == {1} by {
        assert w.rows[0].id == 1 && w.rows[0].family == "family";
      }
      assert w'.logouts == [Snapshot(hash, {1}, 10)];
    } else if n == 4 {
      assert Committed(w.rows, w.clients[0]) == w'.rows;
      assert w'.clients == w.clients[0 := w'.clients[0]];
    } else if n == 5 {
      assert RevokeRows(w.rows, {1}, 10) == w.rows;
    } else {
      assert w'.clients == w.clients[0 := w'.clients[0]];
    }
  }

  function OvertakesFrom(n: nat): seq<Action>
    requires n <= 6
    decreases 6 - n
  {
    if n == 6 then [] else [Overtakes(n)] + OvertakesFrom(n + 1)
  }

  lemma {:induction false} OvertakingRun(hash: Bytes, newHash: Bytes, n: nat)
    requires hash != newHash && n <= 6
    ensures Execution(Overtaking(hash, newHash, n), OvertakesFrom(n))
    ensures Run(Overtaking(hash, newHash, n), OvertakesFrom(n)) == Overtaking(hash, newHash, 6)
    decreases 6 - n
  {
    if n < 6 {
      OvertakingStep(hash, newHash, n);
      OvertakingRun(hash, newHash, n + 1);
      assert OvertakesFrom(n)[1..] == OvertakesFrom(n + 1);
    }
  }

  /** The logout guarantee fails when a rotation commits between the snapshot and the end of a logout: the logout of
      a token has completed, and the token's successor in the same family is still live. */
  lemma {:induction false} LogoutOvertaken(hash: Bytes, newHash: Bytes)
    requires hash != newHash
    ensures var start := [Presented(hash)];
            var w := World(USERS, start, 2, [Rotating(hash, newHash, Ready)], [Waiting(hash, 10)], []);
            && Initial(USERS, start, w)
            && Execution(w, OvertakesFrom(0))
            && var w' := Run(w, OvertakesFrom(0));
            && w'.logouts == [LoggedOut]
            && |w'.rows| == 2 && w'.rows[1].family == w.rows[0].family
            && w'.rows[1].usedAt.None? && w'.rows[1].revokedAt.None? && w'.rows[1].expiresAt > 10
  {
    OvertakingRun(hash, newHash, 0);
    assert UnusedOnlyAt([Presented(hash)], "family", 0);
  }
}

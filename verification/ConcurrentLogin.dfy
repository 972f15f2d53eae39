/** Any number of logins for one rate key at once. The first check is unlocked; recording a failure takes the key's
    advisory lock until its transaction ends; clearing the key after a success takes no lock at all. */
module ConcurrentLogin {
  import opened Common
  import opened LoginLimiter

  datatype Row = Row(id: int, at: Time)

  datatype Phase =
    | Start
    | Passed                          // the unlocked check let it through
    | Locked                          // pg_advisory_xact_lock returned
    | Purged(deleted: set<int>)       // the DELETE ran, not committed
    | Full(deleted: set<int>)         // the count reached the limit, not committed
    | Adding(deleted: set<int>, id: int)  // the INSERT ran, not committed
    | Finished(outcome: Outcome)
    | Aborted

  datatype Attempting = Attempting(now: Time, good: bool, phase: Phase)

  /** The key's committed rows, the failures committed since the last clear, and the order in which the lock went
      round. */
  datatype World = World(
    rows: seq<Row>, nextId: int, logins: seq<Attempting>,
    log: seq<Time>, lastLock: Option<Time>, ordered: bool)

  predicate HoldsLock(p: Phase) { p.Locked? || p.Purged? || p.Full? || p.Adding? }

  ghost predicate LockTaken(w: World) {
    exists c :: 0 <= c < |w.logins| && HoldsLock(w.logins[c].phase)
  }

  function CountRows(rows: seq<Row>, cutoff: Time): nat {
    if rows == [] then 0 else (if rows[0].at > cutoff then 1 else 0) + CountRows(rows[1..], cutoff)
  }

  function Without(rows: seq<Row>, deleted: set<int>): seq<Row> {
    if rows == [] then [] else (if rows[0].id in deleted then [] else [rows[0]]) + Without(rows[1..], deleted)
  }

  function Expired(rows: seq<Row>, cutoff: Time): set<int> {
    set i | 0 <= i < |rows| && rows[i].at <= cutoff :: rows[i].id
  }

  datatype Action =
    | Check(c: nat)
    | ClearKey(c: nat)
    | TakeLock(c: nat)
    | Delete(c: nat)
    | CountAndInsert(c: nat)
    | Commit(c: nat)
    | Abort(c: nat)

  ghost predicate Enabled(w: World, a: Action) {
    && a.c < |w.logins|
    && var x := w.logins[a.c];
    match a
    case Check(_) => x.phase.Start?
    case ClearKey(_) => x.phase.Passed? && x.good
    case TakeLock(_) => x.phase.Passed? && !x.good && !LockTaken(w)
    case Delete(_) => x.phase.Locked?
    case CountAndInsert(_) => x.phase.Purged?
    case Commit(_) => x.phase.Full? || x.phase.Adding?
    case Abort(_) => !x.phase.Finished? && !x.phase.Aborted?
  }

  function At(w: World, c: nat, p: Phase): World
    requires c < |w.logins|
  {
    w.(logins := w.logins[c := w.logins[c].(phase := p)])
  }

  ghost function Step(w: World, a: Action): World
    requires Enabled(w, a)
  {
    var c := a.c;
    var x := w.logins[c];
    var cutoff := x.now - LOGIN_WINDOW;
    match a
    case Check(_) => At(w, c, if CountRows(w.rows, cutoff) >= LOGIN_LIMIT then Finished(TooMany) else Passed)
    case ClearKey(_) => At(w, c, Finished(Accepted)).(rows := [], log := [])
    case TakeLock(_) =>
      At(w, c, Locked).(lastLock := Some(x.now),
                        ordered := w.ordered && (w.lastLock.Some? ==> w.lastLock.value <= x.now))
    case Delete(_) => At(w, c, Purged(Expired(w.rows, cutoff)))
    case CountAndInsert(_) =>
      var deleted := x.phase.deleted;
      if CountRows(Without(w.rows, deleted), cutoff) >= LOGIN_LIMIT then At(w, c, Full(deleted))
      else At(w, c, Adding(deleted, w.nextId)).(nextId := w.nextId + 1)
    case Commit(_) =>
      var kept := Without(w.rows, x.phase.deleted);
      if x.phase.Full? then At(w, c, Finished(TooMany)).(rows := kept)
      else At(w, c, Finished(Rejected)).(rows := kept + [Row(x.phase.id, x.now)], log := w.log + [x.now])
    case Abort(_) => At(w, c, Aborted)
  }

  // ---------------------------------------------------------------- the invariant

  ghost predicate IdsKnown(rows: seq<Row>, nextId: int) {
    && (forall i, j :: 0 <= i < j < |rows| ==> rows[i].id != rows[j].id)
    && (forall i :: 0 <= i < |rows| ==> rows[i].id < nextId)
  }

  /** The private DELETE covers exactly the committed rows that are out of the window. */
  ghost predicate DeletesExpired(rows: seq<Row>, deleted: set<int>, cutoff: Time) {
    forall i :: 0 <= i < |rows| ==> (rows[i].id in deleted <==> rows[i].at <= cutoff)
  }

  ghost predicate PhaseInv(w: World, x: Attempting) {
    && (x.phase.Purged? || x.phase.Full? || x.phase.Adding? ==>
          DeletesExpired(w.rows, x.phase.deleted, x.now - LOGIN_WINDOW))
    && (x.phase.Full? ==> forall i :: 0 <= i < |w.rows| ==> w.rows[i].id !in x.phase.deleted)
    && (x.phase.Adding? ==>
          |Without(w.rows, x.phase.deleted)| < LOGIN_LIMIT && x.phase.id < w.nextId
          && forall i :: 0 <= i < |w.rows| ==> w.rows[i].id != x.phase.id)
    && (HoldsLock(x.phase) ==> w.lastLock == Some(x.now))
  }

  ghost predicate Inv(w: World) {
    && IdsKnown(w.rows, w.nextId) && |w.rows| <= LOGIN_LIMIT
    && (forall c :: 0 <= c < |w.logins| ==> PhaseInv(w, w.logins[c]))
    && (forall c, d :: 0 <= c < d < |w.logins| ==> !(HoldsLock(w.logins[c].phase) && HoldsLock(w.logins[d].phase)))
  }

  lemma {:induction false} CountAtMostLength(rows: seq<Row>, cutoff: Time)
    ensures CountRows(rows, cutoff) <= |rows|
    ensures (forall i :: 0 <= i < |rows| ==> rows[i].at > cutoff) ==> CountRows(rows, cutoff) == |rows|
  {
    if rows != [] {
      CountAtMostLength(rows[1..], cutoff);
    }
  }

  lemma {:induction false} WithoutIn(rows: seq<Row>, deleted: set<int>)
    ensures |Without(rows, deleted)| <= |rows|
    ensures forall i :: 0 <= i < |Without(rows, deleted)| ==>
              Without(rows, deleted)[i] in rows && Without(rows, deleted)[i].id !in deleted
  {
    if rows != [] {
      WithoutIn(rows[1..], deleted);
      assert rows == [rows[0]] + rows[1..];
    }
  }

  lemma {:induction false} WithoutMembers(rows: seq<Row>, deleted: set<int>, nextId: int)
    requires IdsKnown(rows, nextId)
    ensures IdsKnown(Without(rows, deleted), nextId)
    ensures |Without(rows, deleted)| <= |rows|
    ensures forall i :: 0 <= i < |Without(rows, deleted)| ==>
              Without(rows, deleted)[i] in rows && Without(rows, deleted)[i].id !in deleted
  {
    WithoutIn(rows, deleted);
    if rows != [] {
      WithoutMembers(rows[1..], deleted, nextId);
      WithoutIn(rows[1..], deleted);
      var rest := Without(rows[1..], deleted);
      forall i | 0 <= i < |rest| ensures rest[i].id != rows[0].id {
        var j :| 0 <= j < |rows[1..]| && rows[1..][j] == rest[i];
        assert rows[j + 1] == rest[i];
      }
    }
  }

  lemma {:induction false} ExpiredExact(rows: seq<Row>, cutoff: Time, nextId: int)
    requires IdsKnown(rows, nextId)
    ensures DeletesExpired(rows, Expired(rows, cutoff), cutoff)
  {
    forall i | 0 <= i < |rows| ensures rows[i].id in Expired(rows, cutoff) <==> rows[i].at <= cutoff {
      if rows[i].id in Expired(rows, cutoff) {
        var j :| 0 <= j < |rows| && rows[j].at <= cutoff && rows[j].id == rows[i].id;
        assert i == j;
      }
    }
  }

  /** Every row that a purge leaves is inside the window, so the count is the number of rows. */
  lemma {:induction false} CountIsLength(rows: seq<Row>, deleted: set<int>, cutoff: Time, nextId: int)
    requires IdsKnown(rows, nextId) && DeletesExpired(rows, deleted, cutoff)
    ensures CountRows(Without(rows, deleted), cutoff) == |Without(rows, deleted)|
  {
    WithoutMembers(rows, deleted, nextId);
    CountAtMostLength(Without(rows, deleted), cutoff);
  }

  lemma {:induction false} OthersKept(w: World, w': World, c: nat)
    requires Inv(w) && c < |w.logins| && |w'.logins| == |w.logins|
    requires forall d :: 0 <= d < |w.logins| && d != c ==> w'.logins[d] == w.logins[d]
    requires IdsKnown(w'.rows, w'.nextId) && |w'.rows| <= LOGIN_LIMIT && w'.nextId >= w.nextId
    requires PhaseInv(w', w'.logins[c])
    requires HoldsLock(w'.logins[c].phase) ==> HoldsLock(w.logins[c].phase) || !LockTaken(w)
    requires w'.rows == w.rows || w'.rows == [] || HoldsLock(w.logins[c].phase)
    requires w'.lastLock == w.lastLock || !LockTaken(w)
    ensures Inv(w')
  {
    forall d | 0 <= d < |w'.logins| ensures PhaseInv(w', w'.logins[d]) {
      if d != c {
        assert PhaseInv(w, w.logins[d]);
        if HoldsLock(w.logins[d].phase) {
          assert LockTaken(w);
        }
      }
    }
    forall d, e | 0 <= d < e < |w'.logins| ensures !(HoldsLock(w'.logins[d].phase) && HoldsLock(w'.logins[e].phase)) {
      if HoldsLock(w'.logins[d].phase) && d != c {
        assert LockTaken(w);
      }
      if HoldsLock(w'.logins[e].phase) && e != c {
        assert LockTaken(w);
      }
    }
  }

  lemma {:induction false} CommitInv(w: World, c: nat)
    requires Inv(w) && Enabled(w, Commit(c))
    ensures Inv(Step(w, Commit(c)))
  {
    assert PhaseInv(w, w.logins[c]);
    WithoutMembers(w.rows, w.logins[c].phase.deleted, w.nextId);
    var rows' := Step(w, Commit(c)).rows;
    assert IdsKnown(rows', w.nextId) && |rows'| <= LOGIN_LIMIT;
    OthersKept(w, Step(w, Commit(c)), c);
  }

  /** A purge that leaves as many rows as the table may have has deleted none. */
  lemma {:induction false} FullDeletesNothing(rows: seq<Row>, deleted: set<int>)
    requires |Without(rows, deleted)| >= |rows|
    ensures forall i :: 0 <= i < |rows| ==> rows[i].id !in deleted
  {
    if rows != [] {
      WithoutIn(rows[1..], deleted);
      FullDeletesNothing(rows[1..], deleted);
      assert rows == [rows[0]] + rows[1..];
    }
  }

  lemma {:induction false} InsertInv(w: World, c: nat)
    requires Inv(w) && Enabled(w, CountAndInsert(c))
    ensures Inv(Step(w, CountAndInsert(c)))
  {
    assert PhaseInv(w, w.logins[c]);
    if |Without(w.rows, w.logins[c].phase.deleted)| >= LOGIN_LIMIT {
      FullDeletesNothing(w.rows, w.logins[c].phase.deleted);
    }
    CountIsLength(w.rows, w.logins[c].phase.deleted, w.logins[c].now - LOGIN_WINDOW, w.nextId);
    OthersKept(w, Step(w, CountAndInsert(c)), c);
  }

  lemma {:induction false} DeleteInv(w: World, c: nat)
    requires Inv(w) && Enabled(w, Delete(c))
    ensures Inv(Step(w, Delete(c)))
  {
    assert PhaseInv(w, w.logins[c]);
    ExpiredExact(w.rows, w.logins[c].now - LOGIN_WINDOW, w.nextId);
    OthersKept(w, Step(w, Delete(c)), c);
  }

  lemma {:induction false} StepInv(w: World, a: Action)
    requires Inv(w) && Enabled(w, a)
    ensures Inv(Step(w, a))
  {
    match a
    case Delete(c) => DeleteInv(w, c);
    case CountAndInsert(c) => InsertInv(w, c);
    case Commit(c) => CommitInv(w, c);
    case _ => OthersKept(w, Step(w, a), a.c);
  }

  // ---------------------------------------------------------------- windows, while the clock follows the lock

  /** Never more than five failures in a half-open window; times in the log never decrease. */
  ghost predicate Sparse(log: seq<Time>) {
    && (forall i, j :: 0 <= i < j < |log| ==> log[i] <= log[j])
    && (forall i, j :: 0 <= i && i + LOGIN_LIMIT <= j < |log| ==> log[i] + LOGIN_WINDOW <= log[j])
  }

  /** The committed rows are the end of the log; what was purged is out of every later window. */
  ghost predicate IsSuffix(rows: seq<Row>, log: seq<Time>, lastLock: Option<Time>) {
    && |rows| <= |log|
    && (forall i :: 0 <= i < |rows| ==> rows[i].at == log[|log| - |rows| + i])
    && (forall i :: 0 <= i < |log| - |rows| ==> lastLock.Some? && log[i] <= lastLock.value - LOGIN_WINDOW)
  }

  ghost predicate LogInv(rows: seq<Row>, log: seq<Time>, lastLock: Option<Time>) {
    && Sparse(log)
    && (forall i :: 0 <= i < |log| ==> lastLock.Some? && log[i] <= lastLock.value)
    && IsSuffix(rows, log, lastLock)
  }

  ghost predicate Windowed(w: World) {
    w.ordered ==> LogInv(w.rows, w.log, w.lastLock)
  }

  lemma {:induction false} NothingDeleted(rows: seq<Row>, deleted: set<int>)
    requires forall i :: 0 <= i < |rows| ==> rows[i].id !in deleted
    ensures Without(rows, deleted) == rows
  {
    if rows != [] {
      NothingDeleted(rows[1..], deleted);
      assert rows == [rows[0]] + rows[1..];
    }
  }

  ghost predicate Sorted(rows: seq<Row>) { forall i, j :: 0 <= i < j < |rows| ==> rows[i].at <= rows[j].at }

  /** A sorted table is split at any time. */
  lemma {:induction false} SplitAt(rows: seq<Row>, cutoff: Time) returns (m: nat)
    requires Sorted(rows)
    ensures m <= |rows|
    ensures forall i :: 0 <= i < m ==> rows[i].at <= cutoff
    ensures forall i :: m <= i < |rows| ==> rows[i].at > cutoff
  {
    m := 0;
    while m < |rows| && rows[m].at <= cutoff
      invariant 0 <= m <= |rows| && forall i :: 0 <= i < m ==> rows[i].at <= cutoff
    {
      m := m + 1;
    }
  }

  lemma {:induction false} WithoutPrefix(rows: seq<Row>, deleted: set<int>, m: nat)
    requires m <= |rows| && forall i :: 0 <= i < |rows| ==> (rows[i].id in deleted <==> i < m)
    ensures Without(rows, deleted) == rows[m..]
  {
    if m == 0 {
      NothingDeleted(rows, deleted);
    } else {
      WithoutPrefix(rows[1..], deleted, m - 1);
      assert rows[1..][m - 1..] == rows[m..];
    }
  }

  /** In a sorted table a purge cuts a prefix. */
  lemma {:induction false} WithoutIsSuffix(rows: seq<Row>, deleted: set<int>, cutoff: Time) returns (m: nat)
    requires DeletesExpired(rows, deleted, cutoff) && Sorted(rows)
    ensures m <= |rows| && Without(rows, deleted) == rows[m..]
    ensures forall i :: 0 <= i < m ==> rows[i].at <= cutoff
    ensures forall i :: m <= i < |rows| ==> rows[i].at > cutoff
  {
    m := SplitAt(rows, cutoff);
    WithoutPrefix(rows, deleted, m);
  }

  /** A failure is recorded only when fewer than five of the log are in the window: the fifth before it is out. */
  lemma {:induction false} RecordSparse(rows: seq<Row>, log: seq<Time>, row: Row)
    requires LogInv(rows, log, Some(row.at)) && |rows| < LOGIN_LIMIT
    ensures LogInv(rows + [row], log + [row.at], Some(row.at))
  {
    assert IsSuffix(rows + [row], log + [row.at], Some(row.at));
  }

  lemma {:induction false} PurgedSuffix(rows: seq<Row>, log: seq<Time>, deleted: set<int>, now: Time)
    requires LogInv(rows, log, Some(now)) && DeletesExpired(rows, deleted, now - LOGIN_WINDOW)
    ensures LogInv(Without(rows, deleted), log, Some(now))
  {
    var n := |log| - |rows|;
    forall i, j | 0 <= i < j < |rows| ensures rows[i].at <= rows[j].at {
      assert log[n + i] <= log[n + j];
    }
    var m := WithoutIsSuffix(rows, deleted, now - LOGIN_WINDOW);
    forall i | 0 <= i < n + m ensures log[i] <= now - LOGIN_WINDOW {
      if i >= n {
        assert rows[i - n].at == log[n + (i - n)];
      }
    }
  }

  lemma {:induction false} CommitWindowed(w: World, c: nat)
    requires Inv(w) && Windowed(w) && Enabled(w, Commit(c))
    ensures Windowed(Step(w, Commit(c)))
  {
    var x := w.logins[c];
    assert PhaseInv(w, x);
    if w.ordered {
      PurgedSuffix(w.rows, w.log, x.phase.deleted, x.now);
      if x.phase.Adding? {
        RecordSparse(Without(w.rows, x.phase.deleted), w.log, Row(x.phase.id, x.now));
      }
    }
  }

  lemma {:induction false} StepWindowed(w: World, a: Action)
    requires Inv(w) && Windowed(w) && Enabled(w, a)
    ensures Windowed(Step(w, a))
  {
    var w' := Step(w, a);
    if a.Commit? {
      CommitWindowed(w, a.c);
    } else if a.ClearKey? {
    } else if w'.ordered {
      LaterLock(w.rows, w.log, w.lastLock, w'.lastLock);
    }
  }

  /** The lock may go to a later login; the committed rows and the log stay. */
  lemma {:induction false} LaterLock(rows: seq<Row>, log: seq<Time>, last: Option<Time>, last': Option<Time>)
    requires LogInv(rows, log, last) && (last.Some? ==> last'.Some? && last.value <= last'.value)
    ensures LogInv(rows, log, last')
  {
    LaterSuffix(rows, log, last, last');
  }

  lemma {:induction false} LaterSuffix(rows: seq<Row>, log: seq<Time>, last: Option<Time>, last': Option<Time>)
    requires IsSuffix(rows, log, last) && (last.Some? ==> last'.Some? && last.value <= last'.value)
    ensures IsSuffix(rows, log, last')
  {
  }

  // ---------------------------------------------------------------- every execution

  ghost predicate Initial(w: World) {
    && w.rows == [] && w.log == [] && w.lastLock == None && w.ordered
    && (forall c :: 0 <= c < |w.logins| ==> w.logins[c].phase.Start?)
  }

  ghost predicate Execution(w: World, actions: seq<Action>)
    decreases |actions|
  {
    actions == [] || (Enabled(w, actions[0]) && Execution(Step(w, actions[0]), actions[1..]))
  }

  ghost function Run(w: World, actions: seq<Action>): World
    requires Execution(w, actions)
    decreases |actions|
  {
    if actions == [] then w else Run(Step(w, actions[0]), actions[1..])
  }

  lemma {:induction false} RunInv(w: World, actions: seq<Action>)
    requires Inv(w) && Windowed(w) && Execution(w, actions)
    ensures Inv(Run(w, actions)) && Windowed(Run(w, actions))
    decreases |actions|
  {
    if actions != [] {
      StepInv(w, actions[0]);
      StepWindowed(w, actions[0]);
      RunInv(Step(w, actions[0]), actions[1..]);
    }
  }

  function InWindow(log: seq<Time>, from: Time, to: Time): nat {
    if log == [] then 0 else
      InWindow(log[..|log| - 1], from, to) + (if from <= log[|log| - 1] < to then 1 else 0)
  }

  /** The first and the last of the failures in a window, when there are any. */
  lemma {:induction false} WindowSpan(log: seq<Time>, from: Time, to: Time) returns (i: nat, j: nat)
    requires InWindow(log, from, to) > 0
    ensures i <= j < |log| && from <= log[i] < to && from <= log[j] < to && InWindow(log, from, to) <= j - i + 1
  {
    var n := |log| - 1;
    if InWindow(log[..n], from, to) == 0 {
      i, j := n, n;
    } else {
      i, j := WindowSpan(log[..n], from, to);
      if from <= log[n] < to {
        j := n;
      }
    }
  }

  /** In every interleaving of logins for one key, never more than five rows are stored, whatever the clocks say; and
      while record times do not decrease in lock order, no half-open window of 15 minutes between two clears holds
      more than five recorded failures. */
  lemma {:induction false} AtMostFive(w: World, actions: seq<Action>, from: Time)
    requires Initial(w) && Execution(w, actions)
    ensures |Run(w, actions).rows| <= LOGIN_LIMIT
    ensures Run(w, actions).ordered ==> InWindow(Run(w, actions).log, from, from + LOGIN_WINDOW) <= LOGIN_LIMIT
  {
    RunInv(w, actions);
    var w' := Run(w, actions);
    if w'.ordered && InWindow(w'.log, from, from + LOGIN_WINDOW) > 0 {
      var i, j := WindowSpan(w'.log, from, from + LOGIN_WINDOW);
    }
  }
}

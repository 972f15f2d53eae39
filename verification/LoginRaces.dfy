/** A locked key among concurrent logins: what can unlock it before its oldest failure is 15 minutes old. */
module LoginRaces {
  import opened Common
  import opened LoginLimiter
  import opened ConcurrentLogin

  // ---------------------------------------------------------------- nothing but a clear

  /** Five failures are stored, none of them expires before the unlock time, and every login reads its clock before
      it. */
  ghost predicate LockedUntil(w: World, unlock: Time) {
    && Inv(w) && |w.rows| == LOGIN_LIMIT
    && (forall i :: 0 <= i < |w.rows| ==> unlock <= w.rows[i].at + LOGIN_WINDOW)
    && (forall c :: 0 <= c < |w.logins| ==> w.logins[c].now < unlock)
  }

  /** What may become of a login while the key is locked: it is limited, unless it had passed the check before. */
  ghost predicate MeanwhileOnly(p: Phase, p': Phase) {
    && (p.Start? ==> p'.Start? || p'.Aborted? || p' == Finished(TooMany))
    && (p.Aborted? || p.Finished? ==> p' == p)
    && (p'.Finished? && p'.outcome == Accepted ==> p' == p)
    && (p'.Finished? && p'.outcome == Rejected ==> p' == p)
  }

  /** A locked login's private DELETE covers no row. */
  lemma {:induction false} DeletesNothing(w: World, unlock: Time, c: nat)
    requires LockedUntil(w, unlock) && c < |w.logins|
    requires w.logins[c].phase.Purged? || w.logins[c].phase.Full? || w.logins[c].phase.Adding?
    ensures Without(w.rows, w.logins[c].phase.deleted) == w.rows && !w.logins[c].phase.Adding?
  {
    assert PhaseInv(w, w.logins[c]);
    NothingDeleted(w.rows, w.logins[c].phase.deleted);
  }

  lemma {:induction false} StepKeepsRows(w: World, a: Action, unlock: Time)
    requires LockedUntil(w, unlock) && Enabled(w, a) && !a.ClearKey?
    ensures var w' := Step(w, a);
            && w'.rows == w.rows && |w'.logins| == |w.logins|
            && w'.logins[a.c].now == w.logins[a.c].now && MeanwhileOnly(w.logins[a.c].phase, w'.logins[a.c].phase)
            && forall c :: 0 <= c < |w.logins| && c != a.c ==> w'.logins[c] == w.logins[c]
  {
    CountAtMostLength(w.rows, w.logins[a.c].now - LOGIN_WINDOW);
    if a.CountAndInsert? || a.Commit? {
      DeletesNothing(w, unlock, a.c);
    }
  }

  lemma {:induction false} StepStaysLocked(w: World, a: Action, unlock: Time)
    requires LockedUntil(w, unlock) && Enabled(w, a) && !a.ClearKey?
    ensures LockedUntil(Step(w, a), unlock) && Step(w, a).rows == w.rows
    ensures forall c :: 0 <= c < |w.logins| ==> MeanwhileOnly(w.logins[c].phase, Step(w, a).logins[c].phase)
  {
    hide Inv;
    hide Step;
    StepInv(w, a);
    StepKeepsRows(w, a, unlock);
  }

  /** Until the unlock time, in every interleaving without a clear, a locked key stays exactly as it is: no login that
      starts gets past the check, no further failure is stored, and no login is accepted. */
  lemma {:induction false} LockedUntilCleared(w: World, actions: seq<Action>, unlock: Time)
    requires LockedUntil(w, unlock) && Execution(w, actions) && forall i :: 0 <= i < |actions| ==> !actions[i].ClearKey?
    ensures Run(w, actions).rows == w.rows && |Run(w, actions).logins| == |w.logins|
    ensures forall c :: 0 <= c < |w.logins| ==> MeanwhileOnly(w.logins[c].phase, Run(w, actions).logins[c].phase)
    decreases |actions|
  {
    if actions != [] {
      var next := Step(w, actions[0]);
      StepStaysLocked(w, actions[0], unlock);
      LockedUntilCleared(next, actions[1..], unlock);
      forall c | 0 <= c < |w.logins| ensures MeanwhileOnly(w.logins[c].phase, Run(w, actions).logins[c].phase) {
        assert MeanwhileOnly(w.logins[c].phase, next.logins[c].phase);
        assert MeanwhileOnly(next.logins[c].phase, Run(w, actions).logins[c].phase);
      }
    }
  }

  /** A login with good credentials has passed the check and has not cleared the key yet. */
  ghost predicate ClearPending(w: World) {
    exists c :: 0 <= c < |w.logins| && PendingClear(w.logins[c])
  }

  predicate PendingClear(x: Attempting) { x.phase.Passed? && x.good }

  /** While the key is locked no login comes to be in a position to clear it. */
  lemma {:induction false} NoNewClear(w: World, actions: seq<Action>, unlock: Time)
    requires LockedUntil(w, unlock) && Execution(w, actions) && !ClearPending(w)
    ensures forall i :: 0 <= i < |actions| ==> !actions[i].ClearKey?
    decreases |actions|
  {
    if actions != [] {
      var next := Step(w, actions[0]);
      assert !actions[0].ClearKey? by {
        assert !PendingClear(w.logins[actions[0].c]);
      }
      StepStaysLocked(w, actions[0], unlock);
      StepAddsNoClear(w, actions[0], unlock);
      NoNewClear(next, actions[1..], unlock);
      assert actions == [actions[0]] + actions[1..];
    }
  }

  lemma {:induction false} StepAddsNoClear(w: World, a: Action, unlock: Time)
    requires LockedUntil(w, unlock) && Enabled(w, a) && !a.ClearKey? && !ClearPending(w)
    ensures !ClearPending(Step(w, a))
  {
    StepKeepsRows(w, a, unlock);
    var w' := Step(w, a);
    forall c | 0 <= c < |w'.logins| ensures !PendingClear(w'.logins[c]) {
      assert !PendingClear(w.logins[c]);
      if c == a.c {
        assert MeanwhileOnly(w.logins[c].phase, w'.logins[c].phase);
      }
    }
  }

  /** If these are steps of an interleaving, the rows after them are the rows before. */
  ghost predicate Unmoved(w: World, actions: seq<Action>) { Execution(w, actions) ==> Run(w, actions).rows == w.rows }

  /** A locked key stays as it is in every interleaving until its unlock time exactly when, as it locks, no login with
      good credentials has already passed the check; any such login can clear the key at once. */
  lemma {:induction false} LockedExactly(w: World, unlock: Time)
    requires LockedUntil(w, unlock)
    ensures !ClearPending(w) <==> forall actions :: Unmoved(w, actions)
    ensures ClearPending(w) ==> exists c: nat :: Enabled(w, ClearKey(c)) && Step(w, ClearKey(c)).rows == []
  {
    if ClearPending(w) {
      var c: nat :| c < |w.logins| && PendingClear(w.logins[c]);
      var actions := [ClearKey(c)];
      var next := Step(w, ClearKey(c));
      assert Enabled(w, ClearKey(c)) && next.rows == [] && actions[0] == ClearKey(c) && actions[1..] == [];
      assert Execution(next, []) && Run(next, []) == next;
      assert Execution(w, actions) && Run(w, actions) == next;
      assert !Unmoved(w, actions);
    } else {
      forall actions ensures Unmoved(w, actions) {
        if Execution(w, actions) {
          NoNewClear(w, actions, unlock);
          LockedUntilCleared(w, actions, unlock);
        }
      }
    }
  }

  // ---------------------------------------------------------------- a clear by a login that passed before

  lemma {:induction false} RunOn(w: World, first: seq<Action>, second: seq<Action>)
    requires Execution(w, first) && Execution(Run(w, first), second)
    ensures Execution(w, first + second) && Run(w, first + second) == Run(Run(w, first), second)
    decreases |first|
  {
    if first == [] {
      assert first + second == second;
    } else {
      RunOn(Step(w, first[0]), first[1..], second);
      assert (first + second)[0] == first[0] && (first + second)[1..] == first[1..] + second;
    }
  }

  /** One login with good credentials, and five with bad ones, all at one time. */
  function Six(now: Time, passed: Phase, failed: nat, p: Phase): seq<Attempting> {
    [Attempting(now, true, passed)] +
    seq(5, i requires 0 <= i < 5 =>
      Attempting(now, false, if i < failed then Finished(Rejected) else if i == failed then p else Start))
  }

  function StoredFailures(now: Time, n: nat): seq<Row> { seq(n, i requires 0 <= i < n => Row(i, now)) }

  /** The good login has passed the check, n bad ones have failed, and the next one is in phase p. */
  function Staged(now: Time, n: nat, p: Phase): World {
    World(StoredFailures(now, n), if p.Adding? then n + 1 else n, Six(now, Passed, n, p), seq(n, _ => now),
          if n > 0 || HoldsLock(p) then Some(now) else None, true)
  }

  /** The steps of login n + 1, from its check to its recorded failure. */
  function FailureAction(n: nat, k: nat): Action {
    var c := n + 1;
    if k == 0 then Action.Check(c) else if k == 1 then TakeLock(c) else if k == 2 then Delete(c)
    else if k == 3 then CountAndInsert(c) else Commit(c)
  }

  function FailurePhase(n: nat, k: nat): Phase {
    if k == 0 then Start else if k == 1 then Passed else if k == 2 then Locked
    else if k == 3 then Purged({}) else Adding({}, n)
  }

  lemma {:induction false} StoredFailuresAll(now: Time, n: nat)
    ensures CountRows(StoredFailures(now, n), now - LOGIN_WINDOW) == n
    ensures Expired(StoredFailures(now, n), now - LOGIN_WINDOW) == {}
    ensures Without(StoredFailures(now, n), {}) == StoredFailures(now, n)
  {
    CountAtMostLength(StoredFailures(now, n), now - LOGIN_WINDOW);
    NothingDeleted(StoredFailures(now, n), {});
  }

  lemma {:induction false} OnlyOneLocks(now: Time, n: nat, p: Phase)
    requires n < 5
    ensures LockTaken(Staged(now, n, p)) <==> HoldsLock(p)
  {
    if HoldsLock(p) {
      assert HoldsLock(Staged(now, n, p).logins[n + 1].phase);
    }
  }

  lemma {:induction false} FailureStep(now: Time, n: nat, k: nat)
    requires n < LOGIN_LIMIT && k < 4
    ensures var w := Staged(now, n, FailurePhase(n, k));
            && Enabled(w, FailureAction(n, k))
            && Step(w, FailureAction(n, k)) == Staged(now, n, FailurePhase(n, k + 1))
  {
    hide StoredFailures;
    hide CountRows;
    hide Expired;
    var w := Staged(now, n, FailurePhase(n, k));
    StoredFailuresAll(now, n);
    OnlyOneLocks(now, n, FailurePhase(n, k));
    assert Step(w, FailureAction(n, k)).logins == Six(now, Passed, n, FailurePhase(n, k + 1));
  }

  lemma {:induction false} FailureCommit(now: Time, n: nat)
    requires n < LOGIN_LIMIT
    ensures var w := Staged(now, n, FailurePhase(n, 4));
            Enabled(w, FailureAction(n, 4)) && Step(w, FailureAction(n, 4)) == Staged(now, n + 1, Start)
  {
    var w := Staged(now, n, FailurePhase(n, 4));
    var w' := Step(w, FailureAction(n, 4));
    StoredFailuresAll(now, n);
    assert w'.logins == Six(now, Passed, n + 1, Start);
    assert w'.rows == StoredFailures(now, n + 1);
    assert w'.log == seq(n + 1, _ => now);
  }

  /** Steps k to 4 of one failing login. */
  function FailureActions(n: nat, k: nat): seq<Action>
    requires k <= 5
    decreases 5 - k
  {
    if k == 5 then [] else [FailureAction(n, k)] + FailureActions(n, k + 1)
  }

  lemma {:induction false} FailureRun(now: Time, n: nat, k: nat)
    requires n < LOGIN_LIMIT && k < 5
    ensures var w := Staged(now, n, FailurePhase(n, k));
            Execution(w, FailureActions(n, k)) && Run(w, FailureActions(n, k)) == Staged(now, n + 1, Start)
    decreases 5 - k
  {
    var rest := FailureActions(n, k + 1);
    assert FailureActions(n, k)[0] == FailureAction(n, k) && FailureActions(n, k)[1..] == rest;
    if k < 4 {
      FailureStep(now, n, k);
      FailureRun(now, n, k + 1);
    } else {
      FailureCommit(now, n);
    }
  }

  function FiveFailures(n: nat): seq<Action>
    requires n <= 5
  {
    if n == 0 then [] else FiveFailures(n - 1) + FailureActions(n - 1, 0)
  }

  lemma {:induction false} FiveFailuresRun(now: Time, n: nat)
    requires n <= LOGIN_LIMIT
    ensures Execution(Staged(now, 0, Start), FiveFailures(n))
    ensures Run(Staged(now, 0, Start), FiveFailures(n)) == Staged(now, n, Start)
  {
    if n > 0 {
      FiveFailuresRun(now, n - 1);
      FailureRun(now, n - 1, 0);
      RunOn(Staged(now, 0, Start), FiveFailures(n - 1), FailureActions(n - 1, 0));
    }
  }

  /** The world before all six logins, and the steps that lock the key. */
  function Before(now: Time): World { World([], 0, Six(now, Start, 0, Start), [], None, true) }

  function Locking(): seq<Action> { [Action.Check(0)] + FiveFailures(5) }

  lemma {:induction false} FirstCheck(now: Time, first: seq<Action>)
    requires first == [Action.Check(0)]
    ensures Initial(Before(now)) && Execution(Before(now), first) && Run(Before(now), first) == Staged(now, 0, Start)
  {
    var w := Before(now);
    var next := Step(w, first[0]);
    assert next.logins == Six(now, Passed, 0, Start);
    assert next == Staged(now, 0, Start);
    assert first[1..] == [];
  }

  lemma {:induction false} LockingRun(now: Time)
    ensures Initial(Before(now)) && Execution(Before(now), Locking())
    ensures Run(Before(now), Locking()) == Staged(now, 5, Start) && Inv(Staged(now, 5, Start))
  {
    hide FiveFailures;
    hide Execution;
    hide Run;
    hide Staged;
    FirstCheck(now, [Action.Check(0)]);
    FiveFailuresRun(now, 5);
    RunOn(Before(now), [Action.Check(0)], FiveFailures(5));
    EmptyInv(now);
    RunInv(Before(now), Locking());
  }

  lemma {:induction false} EmptyInv(now: Time)
    ensures Inv(Before(now)) && Windowed(Before(now))
  {
  }

  lemma {:induction false} StagedIsLocked(now: Time)
    requires Inv(Staged(now, 5, Start))
    ensures LockedUntil(Staged(now, 5, Start), now + LOGIN_WINDOW)
    ensures var w := Staged(now, 5, Start);
            && Enabled(w, ClearKey(0)) && Step(w, ClearKey(0)).rows == []
            && Step(w, ClearKey(0)).logins[0].phase == Finished(Accepted)
  {
  }

  /** A key does not always stay locked until its oldest failure expires: a login with good credentials that passed the
      check before the fifth failure clears it, at the very time of that failure. */
  lemma {:induction false} ClearedEarly(now: Time)
    ensures Initial(Before(now)) && Execution(Before(now), Locking())
    ensures var locked := Run(Before(now), Locking());
            && LockedUntil(locked, now + LOGIN_WINDOW) && Enabled(locked, ClearKey(0))
            && Step(locked, ClearKey(0)).rows == []
            && Step(locked, ClearKey(0)).logins[0] == Attempting(now, true, Finished(Accepted))
  {
    hide Locking;
    hide Execution;
    hide Run;
    LockingRun(now);
    StagedIsLocked(now);
  }
}

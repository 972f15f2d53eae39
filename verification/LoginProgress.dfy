/** Nobody waits forever for the key's lock, and a login that runs alone is the limiter's login. */
module LoginProgress {
  import opened Common
  import opened LoginLimiter
  import opened ConcurrentLogin
  import opened LoginSerial

  function StepsLeft(p: Phase): nat {
    match p
    case Start => 5
    case Passed => 4
    case Locked => 3
    case Purged(_) => 2
    case Full(_) => 1
    case Adding(_, _) => 1
    case Finished(_) => 0
    case Aborted => 0
  }

  function Left(logins: seq<Attempting>): nat {
    if logins == [] then 0 else StepsLeft(logins[0].phase) + Left(logins[1..])
  }

  lemma {:induction false} FewerSteps(logins: seq<Attempting>, c: nat, x: Attempting)
    requires c < |logins| && StepsLeft(x.phase) < StepsLeft(logins[c].phase)
    ensures Left(logins[c := x]) < Left(logins)
  {
    if c > 0 {
      FewerSteps(logins[1..], c - 1, x);
      assert logins[c := x][1..] == logins[1..][c - 1 := x];
    }
  }

  ghost predicate AllDone(w: World) {
    forall c :: 0 <= c < |w.logins| ==> w.logins[c].phase.Finished? || w.logins[c].phase.Aborted?
  }

  /** As long as a login has not ended, one can go on: who holds the lock always can. */
  lemma {:induction false} SomebodyGoesOn(w: World) returns (a: Action)
    requires !AllDone(w)
    ensures !a.Abort? && Enabled(w, a)
  {
    if LockTaken(w) {
      var c :| 0 <= c < |w.logins| && HoldsLock(w.logins[c].phase);
      var p := w.logins[c].phase;
      a := if p.Locked? then Delete(c) else if p.Purged? then CountAndInsert(c) else Commit(c);
    } else {
      var c :| 0 <= c < |w.logins| && !w.logins[c].phase.Finished? && !w.logins[c].phase.Aborted?;
      a := if w.logins[c].phase.Start? then Action.Check(c) else if w.logins[c].good then ClearKey(c) else TakeLock(c);
    }
  }

  lemma {:induction false} FewerLeft(w: World, a: Action)
    requires Enabled(w, a) && !a.Abort?
    ensures Left(Step(w, a).logins) < Left(w.logins)
  {
    FewerSteps(w.logins, a.c, Step(w, a).logins[a.c]);
  }

  /** What has ended stays as it ended, and no step but giving up gives up. */
  ghost predicate Carried(w: World, w': World) {
    && |w'.logins| == |w.logins|
    && forall c :: 0 <= c < |w.logins| ==>
         && w'.logins[c].now == w.logins[c].now && w'.logins[c].good == w.logins[c].good
         && (w.logins[c].phase.Finished? ==> w'.logins[c] == w.logins[c])
         && (w'.logins[c].phase.Aborted? <==> w.logins[c].phase.Aborted?)
  }

  lemma {:induction false} StepCarries(w: World, a: Action)
    requires Enabled(w, a) && !a.Abort?
    ensures Carried(w, Step(w, a))
  {
  }

  /** From any state, every login can be brought to its answer without giving one up. */
  lemma {:induction false} EverythingEnds(w: World) returns (actions: seq<Action>)
    ensures Execution(w, actions) && |actions| <= Left(w.logins)
    ensures AllDone(Run(w, actions)) && Carried(w, Run(w, actions))
    decreases Left(w.logins)
  {
    hide Enabled;
    hide Step;
    if AllDone(w) {
      actions := [];
    } else {
      var a := SomebodyGoesOn(w);
      FewerLeft(w, a);
      StepCarries(w, a);
      var rest := EverythingEnds(Step(w, a));
      actions := [a] + rest;
      assert actions[1..] == rest;
    }
  }

  // ---------------------------------------------------------------- alone

  lemma {:induction false} Chain(w: World, a: Action, rest: seq<Action>)
    requires Enabled(w, a) && Execution(Step(w, a), rest)
    ensures Execution(w, [a] + rest) && Run(w, [a] + rest) == Run(Step(w, a), rest)
  {
    hide Enabled;
    hide Step;
    assert ([a] + rest)[1..] == rest;
  }

  lemma {:induction false} Single(w: World, a: Action)
    requires Enabled(w, a)
    ensures Execution(w, [a]) && Run(w, [a]) == Step(w, a)
  {
    hide Enabled;
    hide Step;
    assert Execution(Step(w, a), []);
    Chain(w, a, []);
    assert [a] == [a] + [];
  }

  /** A login that is not disturbed, while nobody holds the lock, gets the answer of the limiter's login and leaves its
      rows: so the logins can happen in any order. */
  lemma {:induction false} AloneIsAtomic(w: World, c: nat, key: string) returns (actions: seq<Action>)
    requires Inv(w) && c < |w.logins| && w.logins[c].phase.Start? && !LockTaken(w)
    ensures Execution(w, actions)
    ensures var x := w.logins[c];
            var w' := Run(w, actions);
            var (rows, outcome) := Attempted(Table(key, w.rows), key, x.now, x.good);
            Table(key, w'.rows) == rows && w'.logins == w.logins[c := x.(phase := Finished(outcome))]
  {
    hide Inv;
    hide Table;
    hide Count;
    hide Purge;
    hide Clear;
    var check := Action.Check(c);
    var w1 := Step(w, check);
    StepInv(w, check);
    StepIsCall(w, check, key);
    if w1.logins[c].phase.Finished? {
      actions := [check];
      Single(w, check);
    } else if w.logins[c].good {
      StepIsCall(w1, ClearKey(c), key);
      Single(w1, ClearKey(c));
      Chain(w, check, [ClearKey(c)]);
      actions := [check] + [ClearKey(c)];
    } else {
      assert !LockTaken(w1);
      var rest := AloneRecords(w1, c, key);
      Chain(w, check, rest);
      actions := [check] + rest;
    }
  }

  lemma {:induction false} AloneRecords(w: World, c: nat, key: string) returns (actions: seq<Action>)
    requires Inv(w) && c < |w.logins| && w.logins[c].phase.Passed? && !w.logins[c].good && !LockTaken(w)
    requires !IsLimited(Table(key, w.rows), key, w.logins[c].now)
    ensures Execution(w, actions)
    ensures var x := w.logins[c];
            var w' := Run(w, actions);
            var (rows, limited) := RecordFailure(Table(key, w.rows), key, x.now);
            !limited && Table(key, w'.rows) == rows && w'.logins == w.logins[c := x.(phase := Finished(Rejected))]
  {
    hide Inv;
    hide Table;
    hide Count;
    hide Purge;
    var now := w.logins[c].now;
    var w1 := Step(w, TakeLock(c));
    StepInv(w, TakeLock(c));
    var w2 := Step(w1, Delete(c));
    StepInv(w1, Delete(c));
    var w3 := Step(w2, CountAndInsert(c));
    StepInv(w2, CountAndInsert(c));
    PurgedCount(w2, c, key);
    PurgeCount(Table(key, w.rows), key, now - LOGIN_WINDOW, key, now - LOGIN_WINDOW);
    StepIsCall(w3, Commit(c), key);
    Single(w3, Commit(c));
    Chain(w2, CountAndInsert(c), [Commit(c)]);
    Chain(w1, Delete(c), [CountAndInsert(c)] + [Commit(c)]);
    actions := [TakeLock(c)] + ([Delete(c)] + ([CountAndInsert(c)] + [Commit(c)]));
    Chain(w, TakeLock(c), [Delete(c)] + ([CountAndInsert(c)] + [Commit(c)]));
  }
}

/** Nobody waits forever: concurrent rotations and logouts never block each other for good, and run alone each is the
    atomic operation. */
module RotationProgress {
  import opened Common
  import opened RefreshTokens
  import opened ConcurrentRotation

  // ---------------------------------------------------------------- how much is left to do

  function StepsLeft(p: Phase): nat {
    match p
    case Ready => 4
    case Holding(_, _) => 3
    case Marked(_) => 2
    case Revoking(_, _) => 1
    case Inserted(_, _) => 1
    case Ended(_) => 0
  }

  function ClientsLeft(clients: seq<Client>): nat {
    if clients == [] then 0 else StepsLeft(clients[0].phase) + ClientsLeft(clients[1..])
  }

  function LogoutsLeft(logouts: seq<Logout>): nat {
    if logouts == [] then 0 else
      (match logouts[0] case Waiting(_, _) => 2 case Snapshot(_, _, _) => 1 case LoggedOut => 0)
      + LogoutsLeft(logouts[1..])
  }

  function Left(w: World): nat { ClientsLeft(w.clients) + LogoutsLeft(w.logouts) }

  lemma {:induction false} FewerClientSteps(clients: seq<Client>, c: nat, x: Client)
    requires c < |clients| && StepsLeft(x.phase) < StepsLeft(clients[c].phase)
    ensures ClientsLeft(clients[c := x]) < ClientsLeft(clients)
  {
    if c > 0 {
      FewerClientSteps(clients[1..], c - 1, x);
      assert clients[c := x][1..] == clients[1..][c - 1 := x];
    }
  }

  lemma {:induction false} FewerLogoutSteps(logouts: seq<Logout>, l: nat, x: Logout)
    requires l < |logouts| && !logouts[l].LoggedOut? && (x.LoggedOut? || (x.Snapshot? && logouts[l].Waiting?))
    ensures LogoutsLeft(logouts[l := x]) < LogoutsLeft(logouts)
  {
    if l > 0 {
      FewerLogoutSteps(logouts[1..], l - 1, x);
      assert logouts[l := x][1..] == logouts[1..][l - 1 := x];
    }
  }

  // ---------------------------------------------------------------- somebody can always go on

  /** A step of a rotation or a logout that goes on with it; giving up is none. */
  predicate GoesOn(a: Action) {
    a.Select? || a.Decide? || a.InsertSuccessor? || a.Commit? || a.LogoutStart? || a.LogoutFinish?
  }

  ghost predicate AllDone(w: World) {
    && (forall c :: 0 <= c < |w.clients| ==> w.clients[c].phase.Ended?)
    && forall l :: 0 <= l < |w.logouts| ==> w.logouts[l].LoggedOut?
  }

  /** Whoever holds locks can go on, or waits for somebody who can commit. */
  lemma {:induction false} HolderGoesOn(w: World, c: nat) returns (a: Action)
    requires c < |w.clients| && Holds(w.clients[c].phase)
    ensures GoesOn(a) && Enabled(w, a)
  {
    match w.clients[c].phase
    case Holding(_, _) => a := Decide(c);
    case Revoking(_, _) => a := Commit(c);
    case Inserted(_, _) => a := Commit(c);
    case Marked(_) =>
      if HashPending(w, w.clients[c].newHash) {
        var d :| 0 <= d < |w.clients| && w.clients[d].phase.Inserted? &&
                 w.clients[d].phase.successor.hash == w.clients[c].newHash;
        a := Commit(d);
      } else {
        a := InsertSuccessor(c);
      }
  }

  ghost predicate NobodyHolds(w: World) {
    forall c :: 0 <= c < |w.clients| ==> !Holds(w.clients[c].phase)
  }

  /** As long as a rotation or a logout has not ended, one of them can go on. */
  lemma {:induction false} SomebodyGoesOn(w: World) returns (a: Action)
    requires !AllDone(w)
    ensures GoesOn(a) && Enabled(w, a)
  {
    if !NobodyHolds(w) {
      var c :| 0 <= c < |w.clients| && Holds(w.clients[c].phase);
      a := HolderGoesOn(w, c);
    } else if c :| 0 <= c < |w.clients| && !w.clients[c].phase.Ended? {
      a := Select(c);
    } else {
      var l :| 0 <= l < |w.logouts| && !w.logouts[l].LoggedOut?;
      a := if w.logouts[l].Waiting? then LogoutStart(l) else LogoutFinish(l);
    }
  }

  lemma {:induction false} FewerLeft(w: World, a: Action)
    requires Enabled(w, a) && GoesOn(a)
    ensures Left(Step(w, a)) < Left(w)
  {
    var w' := Step(w, a);
    if a.LogoutStart? || a.LogoutFinish? {
      FewerLogoutSteps(w.logouts, a.l, w'.logouts[a.l]);
    } else {
      FewerClientSteps(w.clients, a.c, w'.clients[a.c]);
    }
  }

  /** What has ended stays as it ended, and nothing that goes on gives up. */
  ghost predicate Carried(w: World, w': World) {
    && |w'.clients| == |w.clients| && |w'.logouts| == |w.logouts|
    && forall c :: 0 <= c < |w.clients| ==>
         && SameCall(w.clients[c], w'.clients[c])
         && (if w.clients[c].phase.Ended? then w'.clients[c] == w.clients[c] else w'.clients[c].phase != Ended(None))
  }

  predicate SameCall(x: Client, x': Client) {
    x'.hash == x.hash && x'.newHash == x.newHash && x'.newExpiry == x.newExpiry && x'.now == x.now
  }

  lemma {:induction false} StepCarries(w: World, a: Action)
    requires Enabled(w, a) && GoesOn(a)
    ensures Carried(w, Step(w, a))
  {
  }

  /** From any state, every rotation and every logout can be brought to its end without giving one up, and cannot go on
      for longer than there are steps left. */
  lemma {:induction false} EverythingEnds(w: World) returns (actions: seq<Action>)
    ensures Execution(w, actions) && |actions| <= Left(w) && forall i :: 0 <= i < |actions| ==> GoesOn(actions[i])
    ensures AllDone(Run(w, actions)) && Carried(w, Run(w, actions))
    decreases Left(w)
  {
    hide Enabled;
    hide Step;
    if AllDone(w) {
      actions := [];
    } else {
      var a := SomebodyGoesOn(w);
      FewerLeft(w, a);
      StepCarries(w, a);
      var rest := EverythingEnds(Step(w, a));
      actions := [a] + rest;
      assert actions[1..] == rest;
    }
  }

  /** No schedule that goes on goes on for longer than there are steps left. */
  lemma {:induction false} NothingGoesOnForever(w: World, actions: seq<Action>)
    requires Execution(w, actions) && forall i :: 0 <= i < |actions| ==> GoesOn(actions[i])
    ensures |actions| <= Left(w)
    decreases |actions|
  {
    hide Enabled;
    hide Step;
    if actions != [] {
      FewerLeft(w, actions[0]);
      NothingGoesOnForever(Step(w, actions[0]), actions[1..]);
    }
  }

  // ---------------------------------------------------------------- alone, a rotation is atomic

  /** A client who is not disturbed, while nobody holds a lock, gets the verdict of the atomic rotation of the table as
      it is, and leaves its rows: so every order of the calls can happen. */
  lemma {:induction false} AloneIsAtomic(w: World, c: nat) returns (actions: seq<Action>)
    requires c < |w.clients| && w.clients[c].phase.Ready? && NobodyHolds(w) && UniqueKeys(w.rows)
    ensures Execution(w, actions)
    ensures var x := w.clients[c];
            var w' := Run(w, actions);
            var (rows, verdict) := Rotate(w.rows, w.users, x.hash, x.newHash, x.newExpiry, w.nextId, x.now);
            && w'.rows == rows && w'.clients == w.clients[c := x.(phase := Ended(Some(verdict)))]
            && w'.users == w.users && w'.logouts == w.logouts
  {
    hide MarkUsed;
    hide RevokeFamily;
    hide RevokeRows;
    hide FamilyIDs;
    var x := w.clients[c];
    var k := IndexOf(w.rows, x.hash);
    var w1 := SelectForUpdate(w, c);
    var rest: seq<Action> := [];
    if k < |w.rows| && ActiveOf(w.users, w.rows[k].userId).Some? {
      rest := AloneDecides(w, w1, c);
      RevokedByID(w.rows, w.rows[k].family, x.now);
      MarkingKeepsHashes(w.rows, w.rows[k].id, x.now, x.newHash);
    }
    actions := [Select(c)] + rest;
    Chain(w, Select(c), rest);
  }

  /** The world that a client who holds its locks leaves when nothing disturbs it. */
  function Alone(w: World, c: nat): World
    requires c < |w.clients| && w.clients[c].phase.Holding?
  {
    var w' := CheckAndUpdate(w, c);
    if w'.clients[c].phase.Revoking? then CommitWrites(w', c)
    else if w'.clients[c].phase.Marked? then
      var inserted := InsertRow(w', c);
      if inserted.clients[c].phase.Inserted? then CommitWrites(inserted, c) else inserted
    else w'
  }

  lemma {:induction false} AloneDecides(w: World, w1: World, c: nat) returns (rest: seq<Action>)
    requires c < |w.clients| && w.clients[c].phase.Ready? && NobodyHolds(w)
    requires w1 == SelectForUpdate(w, c) && w1.clients[c].phase.Holding?
    ensures Execution(w1, rest) && Run(w1, rest) == Alone(w1, c)
  {
    hide Committed;
    hide Successor;
    hide FamilyIDs;
    var w2 := CheckAndUpdate(w1, c);
    var more: seq<Action> := [];
    if w2.clients[c].phase.Revoking? {
      more := [Commit(c)];
      Single(w2, Commit(c));
    } else if w2.clients[c].phase.Marked? {
      AloneInserts(w, w1, w2, c);
      var w3 := InsertRow(w2, c);
      var last: seq<Action> := [];
      if w3.clients[c].phase.Inserted? {
        last := [Commit(c)];
        Single(w3, Commit(c));
      }
      more := [InsertSuccessor(c)] + last;
      Chain(w2, InsertSuccessor(c), last);
    }
    rest := [Decide(c)] + more;
    Chain(w1, Decide(c), more);
  }

  lemma {:induction false} Chain(w: World, a: Action, rest: seq<Action>)
    requires Enabled(w, a) && Execution(Step(w, a), rest)
    ensures Execution(w, [a] + rest) && Run(w, [a] + rest) == Run(Step(w, a), rest)
  {
    hide Enabled;
    hide Step;
    assert ([a] + rest)[1..] == rest;
  }

  lemma {:induction false} Single(w: World, a: Action)
    requires Enabled(w, a)
    ensures Execution(w, [a]) && Run(w, [a]) == Step(w, a)
  {
    hide Enabled;
    hide Step;
    assert Execution(Step(w, a), []);
    Chain(w, a, []);
    assert [a] == [a] + [];
  }

  lemma {:induction false} AloneInserts(w: World, w1: World, w2: World, c: nat)
    requires c < |w.clients| && NobodyHolds(w) && w.clients[c].phase.Ready?
    requires w1 == SelectForUpdate(w, c) && w1.clients[c].phase.Holding?
    requires w2 == CheckAndUpdate(w1, c) && w2.clients[c].phase.Marked?
    ensures Enabled(w2, InsertSuccessor(c))
  {
    forall d | 0 <= d < |w2.clients| ensures !w2.clients[d].phase.Inserted? {
      assert d != c ==> w2.clients[d] == w.clients[d];
    }
  }

  lemma {:induction false} MarkingKeepsHashes(rows: seq<TokenRow>, id: int, now: Time, hash: Bytes)
    ensures IndexOf(MarkUsed(rows, id, now), hash) == IndexOf(rows, hash) && |MarkUsed(rows, id, now)| == |rows|
  {
    SameHashes(rows, MarkUsed(rows, id, now), hash);
  }

  /** Ids being unique, revoking the family's ids revokes the family's rows. */
  lemma {:induction false} RevokedByID(rows: seq<TokenRow>, family: string, now: Time)
    requires UniqueKeys(rows)
    ensures RevokeRows(rows, FamilyIDs(rows, family), now) == RevokeFamily(rows, family, now)
  {
    forall i | 0 <= i < |rows| ensures rows[i].id in FamilyIDs(rows, family) <==> rows[i].family == family {
      if rows[i].id in FamilyIDs(rows, family) {
        var j :| 0 <= j < |rows| && rows[j].family == family && rows[j].id == rows[i].id;
        assert !(i < j) && !(j < i);
      }
    }
  }
}

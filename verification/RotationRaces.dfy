/** What serialisability means for clients that race for one token, and where a logout falls short of it. */
module RotationRaces {
  import opened Common
  import opened Directory
  import opened RefreshTokens
  import opened RefreshHistory
  import opened ConcurrentRotation

  lemma {:induction false} EntryKeeps(rows: seq<TokenRow>, users: seq<UserRow>, e: Entry)
    requires UniqueKeys(rows)
    ensures Keeps(rows, ApplyEntry(rows, users, e))
  {
    if e.Atomic? {
      StepKeeps(rows, users, e.op);
    }
  }

  lemma {:induction false} SerialPrefix(start: seq<TokenRow>, users: seq<UserRow>, history: seq<Entry>, n: nat)
    requires Serial(start, users, history) && n <= |history|
    ensures Serial(start, users, history[..n])
  {
    forall m | 0 <= m < n ensures SerialAt(start, users, history[..n], m) {
      assert SerialAt(start, users, history, m);
      assert history[..n][..m] == history[..m];
    }
  }

  lemma {:induction false} PrefixKeys(start: seq<TokenRow>, users: seq<UserRow>, history: seq<Entry>, n: nat)
    requires Sound(start) && Serial(start, users, history) && n <= |history|
    ensures UniqueKeys(Replay(start, users, history[..n]))
    ensures n < |history| ==>
              Replay(start, users, history[..n + 1]) ==
                ApplyEntry(Replay(start, users, history[..n]), UsersAfter(users, history[..n]), history[n])
  {
    SerialPrefix(start, users, history, n);
    SerialSound(start, users, history[..n]);
    if n < |history| {
      assert history[..n + 1][..n] == history[..n];
    }
  }

  lemma {:induction false} NextKeeps(start: seq<TokenRow>, users: seq<UserRow>, history: seq<Entry>, n: nat)
    requires Sound(start) && Serial(start, users, history) && n < |history|
    ensures Keeps(Replay(start, users, history[..n]), Replay(start, users, history[..n + 1]))
  {
    PrefixKeys(start, users, history, n);
    EntryKeeps(Replay(start, users, history[..n]), UsersAfter(users, history[..n]), history[n]);
  }

  lemma {:induction false} ReplayKeeps(start: seq<TokenRow>, users: seq<UserRow>, history: seq<Entry>, n: nat, m: nat)
    requires Sound(start) && Serial(start, users, history) && n <= m <= |history|
    ensures Keeps(Replay(start, users, history[..n]), Replay(start, users, history[..m]))
    decreases m
  {
    hide Replay;
    hide Serial;
    if n < m {
      ReplayKeeps(start, users, history, n, m - 1);
      NextKeeps(start, users, history, m - 1);
      KeepsTransitive(Replay(start, users, history[..n]), Replay(start, users, history[..m - 1]),
                      Replay(start, users, history[..m]));
    }
  }

  ghost predicate RotationOf(e: Entry, hash: Bytes) {
    e.Atomic? && e.op.RotateOp? && e.op.hash == hash && e.verdict.Some?
  }

  /** In a serial history, when one client has rotated a token, every later client that presents it is told of the
      reuse, and then every token of the family is revoked. */
  lemma {:induction false} LaterIsReuse(start: seq<TokenRow>, users: seq<UserRow>, history: seq<Entry>, hash: Bytes,
                                        n: nat, m: nat)
    requires Sound(start) && Serial(start, users, history) && n < m < |history|
    requires RotationOf(history[n], hash) && history[n].verdict.value.Rotated? && RotationOf(history[m], hash)
    ensures history[m].verdict == Some(Refused(RefreshReuse))
    ensures var before := Replay(start, users, history[..n]);
            var after := Replay(start, users, history[..m + 1]);
            var k := IndexOf(before, hash);
            k < |before| && FamilyRevoked(after, before[k].family)
  {
    var k := RotatedIsSpent(start, users, history, hash, n);
    var spent := Replay(start, users, history[..n + 1]);
    var rows := Replay(start, users, history[..m]);
    ReplayKeeps(start, users, history, n + 1, m);
    assert RowKeeps(spent[k], rows[k]);
    PrefixKeys(start, users, history, m);
    assert SerialAt(start, users, history, m);
    SameUsers(users, history[..m], rows[k].userId);
    SpentIsReused(rows, UsersAfter(users, history[..m]), history[m], k);
  }

  lemma {:induction false} RotatedIsSpent(start: seq<TokenRow>, users: seq<UserRow>, history: seq<Entry>, hash: Bytes,
                                          n: nat)
    returns (k: nat)
    requires Sound(start) && Serial(start, users, history) && n < |history|
    requires RotationOf(history[n], hash) && history[n].verdict.value.Rotated?
    ensures var before := Replay(start, users, history[..n]);
            var spent := Replay(start, users, history[..n + 1]);
            && k == IndexOf(before, hash) && k < |before| && k < |spent|
            && spent[k].usedAt.Some? && spent[k].hash == hash && spent[k].family == before[k].family
            && ActiveOf(users, spent[k].userId).Some?
  {
    var before := Replay(start, users, history[..n]);
    PrefixKeys(start, users, history, n);
    assert SerialAt(start, users, history, n);
    RotateSucceeds(before, UsersAfter(users, history[..n]), history[n].op);
    k := IndexOf(before, hash);
    SameUsers(users, history[..n], before[k].userId);
  }

  lemma {:induction false} SpentIsReused(rows: seq<TokenRow>, users: seq<UserRow>, e: Entry, k: nat)
    requires UniqueKeys(rows) && k < |rows| && rows[k].usedAt.Some? && ActiveOf(users, rows[k].userId).Some?
    requires RotationOf(e, rows[k].hash) && e.verdict == VerdictOf(rows, users, e.op)
    ensures e.verdict == Some(Refused(RefreshReuse)) && FamilyRevoked(ApplyEntry(rows, users, e), rows[k].family)
  {
    var i := IndexOf(rows, rows[k].hash);
    assert i == k;
    UsedReportsReuse(rows, users, e.op.hash, e.op.newHash, e.op.newExpiry, e.op.newId, e.op.now);
  }

  // ---------------------------------------------------------------- clients and the history

  /** The entry is the client's own call, and the client got its verdict. */
  ghost predicate EntryOf(e: Entry, c: nat, x: Client) {
    && RotationOf(e, x.hash) && e.client == Some(c) && x.phase == Ended(e.verdict)
    && e.op.newHash == x.newHash && e.op.newExpiry == x.newExpiry && e.op.now == x.now
  }

  ghost predicate RecordedAt(w: World, c: nat, n: nat) {
    c < |w.clients| && n < |w.history| && EntryOf(w.history[n], c, w.clients[c])
  }

  /** Every client that completed is in the history. */
  ghost predicate Recorded(w: World) {
    forall c: nat :: c < |w.clients| && w.clients[c].phase.Ended? && w.clients[c].phase.verdict.Some? ==>
      exists n: nat :: RecordedAt(w, c, n)
  }

  /** The history holds nothing but what happened: every rotation in it is that of a client that completed, none
      twice. */
  ghost predicate OnlyRecorded(w: World) {
    && (forall n: nat :: n < |w.history| && IsRotation(w.history[n]) ==>
          w.history[n].client.Some? && RecordedAt(w, w.history[n].client.value, n))
    && (forall n: nat, m: nat :: n < m < |w.history| && IsRotation(w.history[n]) && IsRotation(w.history[m]) ==>
          w.history[n].client != w.history[m].client)
  }

  ghost predicate IsRotation(e: Entry) { e.Atomic? && e.op.RotateOp? }

  /** A step leaves a client that has ended as it is, and what is recorded stays recorded. */
  lemma {:induction false} StepKeepsRecords(w: World, a: Action, c: nat, n: nat)
    requires Enabled(w, a) && RecordedAt(w, c, n)
    ensures RecordedAt(Step(w, a), c, n)
  {
  }

  lemma {:induction false} StepOnlyRecords(w: World, a: Action)
    requires OnlyRecorded(w) && Enabled(w, a)
    ensures OnlyRecorded(Step(w, a))
  {
    var w' := Step(w, a);
    forall n: nat | n < |w'.history| && IsRotation(w'.history[n])
      ensures w'.history[n].client.Some? && RecordedAt(w', w'.history[n].client.value, n)
    {
      if n < |w.history| {
        StepKeepsRecords(w, a, w.history[n].client.value, n);
      }
    }
  }

  lemma {:induction false} StepRecords(w: World, a: Action)
    requires Recorded(w) && Enabled(w, a)
    ensures Recorded(Step(w, a))
  {
    var w' := Step(w, a);
    forall c: nat | c < |w'.clients| && w'.clients[c].phase.Ended? && w'.clients[c].phase.verdict.Some?
      ensures exists n: nat :: RecordedAt(w', c, n)
    {
      if w'.clients[c] == w.clients[c] {
        var n: nat :| RecordedAt(w, c, n);
        assert RecordedAt(w', c, n);
      } else {
        assert RecordedAt(w', c, |w.history|);
      }
    }
  }

  lemma {:induction false} RunRecords(w: World, actions: seq<Action>)
    requires Recorded(w) && OnlyRecorded(w) && Execution(w, actions)
    ensures Recorded(Run(w, actions)) && OnlyRecorded(Run(w, actions))
    decreases |actions|
  {
    if actions != [] {
      StepRecords(w, actions[0]);
      StepOnlyRecords(w, actions[0]);
      RunRecords(Step(w, actions[0]), actions[1..]);
    }
  }

  /** Every execution is a serial one: executed one after the other, the operations of the history give the committed
      table; its rotations are exactly the completed clients' calls, once each, with the verdicts those clients got. */
  lemma {:induction false} ExecutionIsSerial(users: seq<UserRow>, start: seq<TokenRow>, w: World, actions: seq<Action>)
    requires Initial(users, start, w) && Execution(w, actions)
    ensures var w' := Run(w, actions);
            && Serial(start, users, w'.history) && Replay(start, users, w'.history) == w'.rows && Sound(w'.rows)
            && UsersAfter(users, w'.history) == w'.users
            && Recorded(w') && OnlyRecorded(w')
  {
    Serializable(users, start, w, actions);
    RunRecords(w, actions);
  }

  /** In every interleaving, of all clients that present one token at most one succeeds, and if one does, every other
      client that completes after it is refused for reuse. */
  lemma {:induction false} OneWinner(users: seq<UserRow>, start: seq<TokenRow>, w: World, actions: seq<Action>, c: nat,
                                     d: nat)
    requires Initial(users, start, w) && Execution(w, actions)
    requires var w' := Run(w, actions);
             && c < |w'.clients| && d < |w'.clients| && c != d && w'.clients[c].hash == w'.clients[d].hash
             && w'.clients[c].phase.Ended? && w'.clients[c].phase.verdict.Some?
             && w'.clients[c].phase.verdict.value.Rotated?
             && w'.clients[d].phase.Ended? && w'.clients[d].phase.verdict.Some?
    ensures var w' := Run(w, actions);
              && !w'.clients[d].phase.verdict.value.Rotated?
              && forall n: nat, m: nat :: RecordedAt(w', c, n) && RecordedAt(w', d, m) && n < m ==>
                   w'.clients[d].phase.verdict == Some(Refused(RefreshReuse))
  {
    Serializable(users, start, w, actions);
    RunRecords(w, actions);
    RecordedOneWinner(users, start, Run(w, actions), c, d);
  }

  lemma {:induction false} RecordedOneWinner(users: seq<UserRow>, start: seq<TokenRow>, w: World, c: nat, d: nat)
    requires Sound(start) && Serial(start, users, w.history) && Recorded(w)
    requires c < |w.clients| && d < |w.clients| && c != d && w.clients[c].hash == w.clients[d].hash
    requires w.clients[c].phase.Ended? && w.clients[c].phase.verdict.Some? && w.clients[c].phase.verdict.value.Rotated?
    requires w.clients[d].phase.Ended? && w.clients[d].phase.verdict.Some?
    ensures !w.clients[d].phase.verdict.value.Rotated?
    ensures forall n: nat, m: nat :: RecordedAt(w, c, n) && RecordedAt(w, d, m) && n < m ==>
              w.clients[d].phase.verdict == Some(Refused(RefreshReuse))
  {
    var n: nat :| RecordedAt(w, c, n);
    var m: nat :| RecordedAt(w, d, m);
    if n < m {
      LaterIsReuse(start, users, w.history, w.clients[c].hash, n, m);
    } else if w.clients[d].phase.verdict.value.Rotated? {
      LaterIsReuse(start, users, w.history, w.clients[c].hash, m, n);
    }
    forall n': nat, m': nat | RecordedAt(w, c, n') && RecordedAt(w, d, m') && n' < m'
      ensures w.clients[d].phase.verdict == Some(Refused(RefreshReuse))
    {
      LaterIsReuse(start, users, w.history, w.clients[c].hash, n', m');
    }
  }
}

/** Concurrent logins for one key as a run of the limiter: each step is one call of it, with its answer, or none. */
module LoginSerial {
  import opened Common
  import opened LoginLimiter
  import opened ConcurrentLogin

  /** The key's rows as rows of the limiter's table. */
  function Table(key: string, rows: seq<Row>): seq<Attempt> {
    seq(|rows|, i requires 0 <= i < |rows| => Attempt(key, rows[i].at, false))
  }

  // ---------------------------------------------------------------- the statements agree

  lemma {:induction false} CountRowsAppended(rows: seq<Row>, row: Row, cutoff: Time)
    ensures CountRows(rows + [row], cutoff) == CountRows(rows, cutoff) + if row.at > cutoff then 1 else 0
  {
    if rows == [] {
      assert rows + [row] == [row];
    } else {
      assert (rows + [row])[1..] == rows[1..] + [row];
      CountRowsAppended(rows[1..], row, cutoff);
    }
  }

  lemma {:induction false} WithoutAppended(rows: seq<Row>, row: Row, deleted: set<int>)
    ensures Without(rows + [row], deleted) == Without(rows, deleted) + if row.id in deleted then [] else [row]
  {
    if rows == [] {
      assert rows + [row] == [row];
    } else {
      assert (rows + [row])[1..] == rows[1..] + [row];
      WithoutAppended(rows[1..], row, deleted);
    }
  }

  lemma {:induction false} TableAppended(key: string, rows: seq<Row>, row: Row)
    ensures Table(key, rows + [row]) == Table(key, rows) + [Attempt(key, row.at, false)]
  {
  }

  lemma {:induction false} CountAgrees(key: string, rows: seq<Row>, cutoff: Time)
    ensures Count(Table(key, rows), key, cutoff) == CountRows(rows, cutoff)
  {
    if rows != [] {
      var front, last := rows[..|rows| - 1], rows[|rows| - 1];
      assert rows == front + [last];
      CountAgrees(key, front, cutoff);
      CountRowsAppended(front, last, cutoff);
      TableAppended(key, front, last);
      AppendCount(Table(key, front), Attempt(key, last.at, false), key, cutoff);
    }
  }

  lemma {:induction false} PurgeAgrees(key: string, rows: seq<Row>, deleted: set<int>, cutoff: Time)
    requires DeletesExpired(rows, deleted, cutoff)
    ensures Purge(Table(key, rows), key, cutoff) == Table(key, Without(rows, deleted))
  {
    if rows != [] {
      var front, last := rows[..|rows| - 1], rows[|rows| - 1];
      assert rows == front + [last];
      PurgeAgrees(key, front, deleted, cutoff);
      WithoutAppended(front, last, deleted);
      TableAppended(key, front, last);
      TableAppended(key, Without(front, deleted), last);
      AppendPurge(Table(key, front), Attempt(key, last.at, false), key, cutoff);
    }
  }

  lemma {:induction false} ClearAgrees(key: string, rows: seq<Row>)
    ensures Clear(Table(key, rows), key) == [] == Table(key, [])
  {
    if rows != [] {
      ClearAgrees(key, rows[..|rows| - 1]);
      assert Table(key, rows)[..|rows| - 1] == Table(key, rows[..|rows| - 1]);
    }
  }

  // ---------------------------------------------------------------- one step

  datatype Event = Event(call: Call, answer: Answer)

  /** The limiter's call that a step stands for: a check; a clear; a refused record at its count; an accepted record
      at its commit. */
  ghost function StepEvent(w: World, a: Action, key: string): Option<Event>
    requires Enabled(w, a)
  {
    var x := w.logins[a.c];
    match a
    case Check(_) =>
      Some(Event(Call.Check(key, x.now), Reply(CountRows(w.rows, x.now - LOGIN_WINDOW) >= LOGIN_LIMIT)))
    case ClearKey(_) => Some(Event(Reset(key), Done))
    case CountAndInsert(_) =>
      if CountRows(Without(w.rows, x.phase.deleted), x.now - LOGIN_WINDOW) >= LOGIN_LIMIT
      then Some(Event(Record(key, x.now), Reply(true))) else None
    case Commit(_) => if x.phase.Adding? then Some(Event(Record(key, x.now), Reply(false))) else None
    case _ => None
  }

  /** The purge and the count of a login that holds the lock, as the limiter does them. */
  lemma {:induction false} PurgedCount(w: World, c: nat, key: string)
    requires Inv(w) && c < |w.logins|
    requires w.logins[c].phase.Purged? || w.logins[c].phase.Full? || w.logins[c].phase.Adding?
    ensures var x := w.logins[c];
            var kept := Without(w.rows, x.phase.deleted);
            && Purge(Table(key, w.rows), key, x.now - LOGIN_WINDOW) == Table(key, kept)
            && Recent(Table(key, kept), key, x.now) == CountRows(kept, x.now - LOGIN_WINDOW) == |kept|
  {
    hide Count;
    hide Purge;
    hide CountRows;
    hide Without;
    hide Table;
    var x := w.logins[c];
    var kept := Without(w.rows, x.phase.deleted);
    assert PhaseInv(w, x);
    PurgeAgrees(key, w.rows, x.phase.deleted, x.now - LOGIN_WINDOW);
    CountAgrees(key, kept, x.now - LOGIN_WINDOW);
    CountIsLength(w.rows, x.phase.deleted, x.now - LOGIN_WINDOW, w.nextId);
  }

  /** A login that finds the table full has purged nothing. */
  lemma {:induction false} FullKeepsRows(w: World, c: nat)
    requires Inv(w) && c < |w.logins|
    requires w.logins[c].phase.Full? ||
             (w.logins[c].phase.Purged? && |Without(w.rows, w.logins[c].phase.deleted)| >= LOGIN_LIMIT)
    ensures Without(w.rows, w.logins[c].phase.deleted) == w.rows
  {
    assert PhaseInv(w, w.logins[c]);
    if w.logins[c].phase.Purged? {
      FullDeletesNothing(w.rows, w.logins[c].phase.deleted);
    }
    NothingDeleted(w.rows, w.logins[c].phase.deleted);
  }

  /** The step does to the table what its call does, or nothing. */
  ghost predicate IsCall(w: World, a: Action, key: string)
    requires Enabled(w, a)
  {
    var rows, rows' := Table(key, w.rows), Table(key, Step(w, a).rows);
    match StepEvent(w, a, key)
    case None => rows' == rows
    case Some(e) => Apply(rows, e.call) == (rows', e.answer)
  }

  lemma {:induction false} CountIsCall(w: World, c: nat, key: string)
    requires Inv(w) && Enabled(w, CountAndInsert(c))
    ensures IsCall(w, CountAndInsert(c), key)
  {
    hide Purge;
    hide Count;
    hide Table;
    PurgedCount(w, c, key);
    if |Without(w.rows, w.logins[c].phase.deleted)| >= LOGIN_LIMIT {
      FullKeepsRows(w, c);
    }
  }

  lemma {:induction false} CommitIsCall(w: World, c: nat, key: string)
    requires Inv(w) && Enabled(w, Commit(c))
    ensures IsCall(w, Commit(c), key)
  {
    hide Purge;
    hide Count;
    hide Table;
    var x := w.logins[c];
    PurgedCount(w, c, key);
    if x.phase.Full? {
      FullKeepsRows(w, c);
    } else {
      assert PhaseInv(w, x);
      TableAppended(key, Without(w.rows, x.phase.deleted), Row(x.phase.id, x.now));
    }
  }

  /** Every step of an interleaving leaves the table, or does to it exactly what one call of the limiter does, with that
      call's answer. */
  lemma {:induction false} StepIsCall(w: World, a: Action, key: string)
    requires Inv(w) && Enabled(w, a)
    ensures IsCall(w, a, key)
  {
    match a {
      case Check(c) => CountAgrees(key, w.rows, w.logins[c].now - LOGIN_WINDOW);
      case ClearKey(_) => ClearAgrees(key, w.rows);
      case CountAndInsert(c) => CountIsCall(w, c, key);
      case Commit(c) => CommitIsCall(w, c, key);
      case _ =>
    }
  }

  /** What a login does with the answers: refused at the check it is done, refused at the count it will end as refused,
      and an accepted record ends it as rejected. */
  lemma {:induction false} AnswerIsOutcome(w: World, a: Action, key: string)
    requires Enabled(w, a) && StepEvent(w, a, key).Some?
    ensures var answer := StepEvent(w, a, key).value.answer;
            var p := Step(w, a).logins[a.c].phase;
            && (a.Check? ==> p == if answer.limited then Finished(TooMany) else Passed)
            && (a.ClearKey? ==> p == Finished(Accepted))
            && (a.CountAndInsert? ==> answer.limited && p.Full?)
            && (a.Commit? ==> !answer.limited && p == Finished(Rejected))
  {
  }

  // ---------------------------------------------------------------- every execution

  ghost function Trace(w: World, actions: seq<Action>, key: string): seq<Event>
    requires Execution(w, actions)
    decreases |actions|
  {
    if actions == [] then [] else
      var rest := Trace(Step(w, actions[0]), actions[1..], key);
      match StepEvent(w, actions[0], key)
      case Some(e) => [e] + rest
      case None => rest
  }

  function Calls(events: seq<Event>): seq<Call> {
    seq(|events|, i requires 0 <= i < |events| => events[i].call)
  }

  function Replies(events: seq<Event>): seq<Answer> {
    seq(|events|, i requires 0 <= i < |events| => events[i].answer)
  }

  lemma {:induction false} RunIsCalls(w: World, actions: seq<Action>, key: string)
    requires Inv(w) && Execution(w, actions)
    ensures var events := Trace(w, actions, key);
            && Rows(Table(key, w.rows), Calls(events)) == Table(key, Run(w, actions).rows)
            && Answers(Table(key, w.rows), Calls(events)) == Replies(events)
    decreases |actions|
  {
    if actions != [] {
      var next := Step(w, actions[0]);
      var rest := Trace(next, actions[1..], key);
      StepInv(w, actions[0]);
      StepIsCall(w, actions[0], key);
      RunIsCalls(next, actions[1..], key);
      var e := StepEvent(w, actions[0], key);
      if e.Some? {
        OneMoreCall(Table(key, w.rows), e.value, rest);
      }
    }
  }

  lemma {:induction false} OneMoreCall(rows: seq<Attempt>, e: Event, rest: seq<Event>)
    requires Apply(rows, e.call).1 == e.answer
    requires Answers(Apply(rows, e.call).0, Calls(rest)) == Replies(rest)
    ensures Rows(rows, Calls([e] + rest)) == Rows(Apply(rows, e.call).0, Calls(rest))
    ensures Answers(rows, Calls([e] + rest)) == Replies([e] + rest)
  {
    hide Apply;
    var calls := Calls([e] + rest);
    assert calls[0] == e.call && calls[1..] == Calls(rest);
    assert Replies([e] + rest) == [e.answer] + Replies(rest);
    RowsFromFront(rows, [], calls);
  }

  /** Every interleaving of logins for a key, whatever their clocks say, is a run of the limiter from the empty table:
      its calls one after the other give the committed rows, and their answers are those that the logins went by. */
  lemma {:induction false} LoginsAreLimiterRun(w: World, actions: seq<Action>, key: string)
    requires Initial(w) && Execution(w, actions)
    ensures var events := Trace(w, actions, key);
            && Rows([], Calls(events)) == Table(key, Run(w, actions).rows)
            && Answers([], Calls(events)) == Replies(events)
  {
    RunIsCalls(w, actions, key);
    assert Table(key, w.rows) == [];
  }

  /** While the clock goes forward in the order of the calls, the concurrent logins go by the answers of the complete
      history of failures since the last clear. */
  lemma {:induction false} ConcurrentAnswersAreExact(w: World, actions: seq<Action>, key: string)
    requires Initial(w) && Execution(w, actions) && ClockForward(Calls(Trace(w, actions, key)))
    ensures Replies(Trace(w, actions, key)) == LogAnswers([], Calls(Trace(w, actions, key)))
  {
    LoginsAreLimiterRun(w, actions, key);
    PurgedAnswersAreExact(Calls(Trace(w, actions, key)));
  }
}

/** The login_attempts table: a sliding window of failures, purged on the way. */
module LoginLimiter {
  import opened Common

  datatype Attempt = Attempt(key: string, at: Time, succeeded: bool)

  const LOGIN_LIMIT := 5
  const LOGIN_WINDOW: Time := 15 * MINUTE

  /** COUNT(*) WHERE rate_key = key AND succeeded = false AND attempted_at > cutoff */
  function Count(rows: seq<Attempt>, key: string, cutoff: Time): nat {
    if rows == [] then 0 else
      var last := rows[|rows| - 1];
      Count(rows[..|rows| - 1], key, cutoff) + (if last.key == key && !last.succeeded && last.at > cutoff then 1 else 0)
  }

  /** DELETE WHERE rate_key = key AND attempted_at <= cutoff */
  function Purge(rows: seq<Attempt>, key: string, cutoff: Time): seq<Attempt> {
    if rows == [] then [] else
      var last := rows[|rows| - 1];
      Purge(rows[..|rows| - 1], key, cutoff) + (if last.key == key && last.at <= cutoff then [] else [last])
  }

  /** DELETE WHERE rate_key = key */
  function Clear(rows: seq<Attempt>, key: string): seq<Attempt> {
    if rows == [] then [] else
      var last := rows[|rows| - 1];
      Clear(rows[..|rows| - 1], key) + (if last.key == key then [] else [last])
  }

  /** The failures of the half-open window that ends at now. */
  function Recent(rows: seq<Attempt>, key: string, now: Time): nat {
    Count(rows, key, now - LOGIN_WINDOW)
  }

  function IsLimited(rows: seq<Attempt>, key: string, now: Time): bool {
    Recent(rows, key, now) >= LOGIN_LIMIT
  }

  /** Purge, count, and insert unless the limit is reached. */
  function RecordFailure(rows: seq<Attempt>, key: string, now: Time): (seq<Attempt>, bool) {
    var kept := Purge(rows, key, now - LOGIN_WINDOW);
    if IsLimited(kept, key, now) then (kept, true) else (kept + [Attempt(key, now, false)], false)
  }

  // ---------------------------------------------------------------- the complete history

  datatype Call =
    | Check(key: string, now: Time)
    | Record(key: string, now: Time)
    | Reset(key: string)

  datatype Answer = Reply(limited: bool) | Done

  /** The table as the repository keeps it. */
  function Apply(rows: seq<Attempt>, c: Call): (seq<Attempt>, Answer) {
    match c
    case Check(key, now) => (rows, Reply(IsLimited(rows, key, now)))
    case Record(key, now) => var (rows', limited) := RecordFailure(rows, key, now); (rows', Reply(limited))
    case Reset(key) => (Clear(rows, key), Done)
  }

  /** The same calls over a log that is never purged: only a reset removes failures. */
  function ApplyLog(log: seq<Attempt>, c: Call): (seq<Attempt>, Answer) {
    match c
    case Check(key, now) => (log, Reply(IsLimited(log, key, now)))
    case Record(key, now) =>
      if IsLimited(log, key, now) then (log, Reply(true)) else (log + [Attempt(key, now, false)], Reply(false))
    case Reset(key) => (Clear(log, key), Done)
  }

  function Answers(rows: seq<Attempt>, calls: seq<Call>): seq<Answer>
    decreases |calls|
  {
    if calls == [] then [] else [Apply(rows, calls[0]).1] + Answers(Apply(rows, calls[0]).0, calls[1..])
  }

  function LogAnswers(log: seq<Attempt>, calls: seq<Call>): seq<Answer>
    decreases |calls|
  {
    if calls == [] then [] else [ApplyLog(log, calls[0]).1] + LogAnswers(ApplyLog(log, calls[0]).0, calls[1..])
  }

  /** Per key, the clock never goes backwards over the calls. */
  ghost predicate ClockForward(calls: seq<Call>) {
    forall i, j :: 0 <= i < j < |calls| && !calls[i].Reset? && !calls[j].Reset? && calls[i].key == calls[j].key ==>
      calls[i].now <= calls[j].now
  }

  // ---------------------------------------------------------------- statements

  lemma {:induction false} AppendCount(rows: seq<Attempt>, row: Attempt, key: string, cutoff: Time)
    ensures Count(rows + [row], key, cutoff) ==
            Count(rows, key, cutoff) + if row.key == key && !row.succeeded && row.at > cutoff then 1 else 0
  {
    assert (rows + [row])[..|rows|] == rows;
  }

  lemma {:induction false} PurgeCount(rows: seq<Attempt>, key: string, cutoff: Time, other: string, later: Time)
    requires other == key ==> cutoff <= later
    ensures Count(Purge(rows, key, cutoff), other, later) == Count(rows, other, later)
  {
    if rows != [] {
      var front := rows[..|rows| - 1];
      var last := rows[|rows| - 1];
      PurgeCount(front, key, cutoff, other, later);
      if last.key == key && last.at <= cutoff {
        assert Purge(rows, key, cutoff) == Purge(front, key, cutoff);
      } else {
        AppendCount(Purge(front, key, cutoff), last, other, later);
      }
    }
  }

  lemma {:induction false} ClearCount(rows: seq<Attempt>, key: string, other: string, cutoff: Time)
    ensures Count(Clear(rows, key), other, cutoff) == if other == key then 0 else Count(rows, other, cutoff)
  {
    if rows != [] {
      var front := rows[..|rows| - 1];
      var last := rows[|rows| - 1];
      ClearCount(front, key, other, cutoff);
      if last.key == key {
        assert Clear(rows, key) == Clear(front, key);
      } else {
        AppendCount(Clear(front, key), last, other, cutoff);
      }
    }
  }

  // ---------------------------------------------------------------- the purged table agrees with the complete history

  /** From each key's current time on, both count the same failures in every window. */
  ghost predicate Agree(rows: seq<Attempt>, log: seq<Attempt>, clock: map<string, Time>) {
    forall key, now :: (key in clock ==> clock[key] <= now) ==> Recent(rows, key, now) == Recent(log, key, now)
  }

  function Tick(clock: map<string, Time>, c: Call): map<string, Time> {
    if c.Reset? then clock else clock[c.key := c.now]
  }

  lemma {:induction false} StepAgrees(rows: seq<Attempt>, log: seq<Attempt>, clock: map<string, Time>, c: Call)
    requires Agree(rows, log, clock) && (!c.Reset? && c.key in clock ==> clock[c.key] <= c.now)
    ensures Apply(rows, c).1 == ApplyLog(log, c).1
    ensures Agree(Apply(rows, c).0, ApplyLog(log, c).0, Tick(clock, c))
  {
    if c.Record? {
      PurgeCount(rows, c.key, c.now - LOGIN_WINDOW, c.key, c.now - LOGIN_WINDOW);
      assert Recent(rows, c.key, c.now) == Recent(log, c.key, c.now);
    }
    forall key, now | key in Tick(clock, c) ==> Tick(clock, c)[key] <= now
      ensures Recent(Apply(rows, c).0, key, now) == Recent(ApplyLog(log, c).0, key, now)
    {
      assert Recent(rows, key, now) == Recent(log, key, now);
      StepAgreesAt(rows, log, c, key, now);
    }
  }

  lemma {:induction false} StepAgreesAt(rows: seq<Attempt>, log: seq<Attempt>, c: Call, key: string, now: Time)
    requires Recent(rows, key, now) == Recent(log, key, now)
    requires c.Record? ==> Recent(rows, c.key, c.now) == Recent(log, c.key, c.now) && (key == c.key ==> c.now <= now)
    ensures Recent(Apply(rows, c).0, key, now) == Recent(ApplyLog(log, c).0, key, now)
  {
    match c {
      case Check(_, _) =>
      case Reset(k) =>
        ClearCount(rows, k, key, now - LOGIN_WINDOW);
        ClearCount(log, k, key, now - LOGIN_WINDOW);
      case Record(k, at) =>
        RecordAgrees(rows, log, k, at, key, now);
    }
  }

  lemma {:induction false} RecordAgrees(rows: seq<Attempt>, log: seq<Attempt>, k: string, at: Time, key: string,
                                        now: Time)
    requires Recent(rows, k, at) == Recent(log, k, at) && Recent(rows, key, now) == Recent(log, key, now)
    requires key == k ==> at <= now
    ensures Recent(Apply(rows, Record(k, at)).0, key, now) == Recent(ApplyLog(log, Record(k, at)).0, key, now)
  {
    var kept := Purge(rows, k, at - LOGIN_WINDOW);
    PurgeCount(rows, k, at - LOGIN_WINDOW, k, at - LOGIN_WINDOW);
    PurgeCount(rows, k, at - LOGIN_WINDOW, key, now - LOGIN_WINDOW);
    AppendCount(kept, Attempt(k, at, false), key, now - LOGIN_WINDOW);
    AppendCount(log, Attempt(k, at, false), key, now - LOGIN_WINDOW);
  }

  lemma {:induction false} RunAgrees(rows: seq<Attempt>, log: seq<Attempt>, clock: map<string, Time>, calls: seq<Call>)
    requires Agree(rows, log, clock) && ClockForward(calls)
    requires forall i :: 0 <= i < |calls| && !calls[i].Reset? && calls[i].key in clock ==>
               clock[calls[i].key] <= calls[i].now
    ensures Answers(rows, calls) == LogAnswers(log, calls)
    decreases |calls|
  {
    if calls != [] {
      StepAgrees(rows, log, clock, calls[0]);
      RunAgrees(Apply(rows, calls[0]).0, ApplyLog(log, calls[0]).0, Tick(clock, calls[0]), calls[1..]);
    }
  }

  /** While no key's clock goes backwards, every answer of the purged table is the answer of the complete history of
      failures since the last reset. */
  lemma {:induction false} PurgedAnswersAreExact(calls: seq<Call>)
    requires ClockForward(calls)
    ensures Answers([], calls) == LogAnswers([], calls)
  {
    RunAgrees([], [], map[], calls);
  }

  // ---------------------------------------------------------------- the bound on stored rows

  function KeyRows(rows: seq<Attempt>, key: string): seq<Attempt> {
    if rows == [] then [] else
      KeyRows(rows[..|rows| - 1], key) + (if rows[|rows| - 1].key == key then [rows[|rows| - 1]] else [])
  }

  /** No row records a success, and no key has more rows than the limit. */
  ghost predicate Bounded(rows: seq<Attempt>) {
    && (forall i :: 0 <= i < |rows| ==> !rows[i].succeeded)
    && forall key :: |KeyRows(rows, key)| <= LOGIN_LIMIT
  }

  lemma {:induction false} AppendKeyRows(rows: seq<Attempt>, row: Attempt, key: string)
    ensures KeyRows(rows + [row], key) == KeyRows(rows, key) + if row.key == key then [row] else []
  {
    assert (rows + [row])[..|rows|] == rows;
  }

  /** A purge leaves the key's rows that are younger than the cutoff. */
  lemma {:induction false} PurgeKeyRows(rows: seq<Attempt>, key: string, cutoff: Time)
    requires forall i :: 0 <= i < |rows| ==> !rows[i].succeeded
    ensures forall i :: 0 <= i < |Purge(rows, key, cutoff)| ==> !Purge(rows, key, cutoff)[i].succeeded
    ensures |KeyRows(Purge(rows, key, cutoff), key)| == Count(Purge(rows, key, cutoff), key, cutoff)
    ensures |KeyRows(Purge(rows, key, cutoff), key)| <= |KeyRows(rows, key)|
  {
    if rows != [] {
      var front := rows[..|rows| - 1];
      var last := rows[|rows| - 1];
      PurgeKeyRows(front, key, cutoff);
      if last.key == key && last.at <= cutoff {
        assert Purge(rows, key, cutoff) == Purge(front, key, cutoff);
      } else {
        AppendKeyRows(Purge(front, key, cutoff), last, key);
        AppendCount(Purge(front, key, cutoff), last, key, cutoff);
      }
    }
  }

  lemma {:induction false} PurgeLeavesYoung(rows: seq<Attempt>, key: string, cutoff: Time)
    ensures forall i :: 0 <= i < |Purge(rows, key, cutoff)| && Purge(rows, key, cutoff)[i].key == key ==>
              Purge(rows, key, cutoff)[i].at > cutoff
  {
    if rows != [] {
      PurgeLeavesYoung(rows[..|rows| - 1], key, cutoff);
    }
  }

  lemma {:induction false} PurgeOtherRows(rows: seq<Attempt>, key: string, cutoff: Time, other: string)
    requires other != key
    ensures KeyRows(Purge(rows, key, cutoff), other) == KeyRows(rows, other)
  {
    if rows != [] {
      var front := rows[..|rows| - 1];
      PurgeOtherRows(front, key, cutoff, other);
      AppendKeyRows(Purge(front, key, cutoff), rows[|rows| - 1], other);
      if rows[|rows| - 1].key == key && rows[|rows| - 1].at <= cutoff {
        assert Purge(rows, key, cutoff) == Purge(front, key, cutoff);
      }
    }
  }

  lemma {:induction false} ClearKeyRows(rows: seq<Attempt>, key: string, other: string)
    ensures KeyRows(Clear(rows, key), other) == if other == key then [] else KeyRows(rows, other)
  {
    if rows != [] {
      var front := rows[..|rows| - 1];
      var last := rows[|rows| - 1];
      ClearKeyRows(front, key, other);
      if last.key == key {
        assert Clear(rows, key) == Clear(front, key);
      } else {
        AppendKeyRows(Clear(front, key), last, other);
      }
    }
  }

  lemma {:induction false} ClearKeepsFailures(rows: seq<Attempt>, key: string)
    requires forall i :: 0 <= i < |rows| ==> !rows[i].succeeded
    ensures forall i :: 0 <= i < |Clear(rows, key)| ==> !Clear(rows, key)[i].succeeded
  {
    if rows != [] {
      ClearKeepsFailures(rows[..|rows| - 1], key);
    }
  }

  lemma {:induction false} RecordBoundedAt(rows: seq<Attempt>, k: string, at: Time, key: string)
    requires forall i :: 0 <= i < |rows| ==> !rows[i].succeeded
    requires |KeyRows(rows, key)| <= LOGIN_LIMIT
    ensures var rows' := RecordFailure(rows, k, at).0;
            && |KeyRows(rows', key)| <= LOGIN_LIMIT && (key != k ==> KeyRows(rows', key) == KeyRows(rows, key))
            && forall i :: 0 <= i < |rows'| ==> !rows'[i].succeeded
  {
    hide KeyRows;
    hide Purge;
    hide Count;
    PurgeKeyRows(rows, k, at - LOGIN_WINDOW);
    if key != k {
      PurgeOtherRows(rows, k, at - LOGIN_WINDOW, key);
    }
    AppendKeyRows(Purge(rows, k, at - LOGIN_WINDOW), Attempt(k, at, false), key);
  }

  lemma {:induction false} StepBoundedAt(rows: seq<Attempt>, c: Call, key: string)
    requires forall i :: 0 <= i < |rows| ==> !rows[i].succeeded
    requires |KeyRows(rows, key)| <= LOGIN_LIMIT
    ensures |KeyRows(Apply(rows, c).0, key)| <= LOGIN_LIMIT
    ensures key != c.key ==> KeyRows(Apply(rows, c).0, key) == KeyRows(rows, key)
    ensures forall i :: 0 <= i < |Apply(rows, c).0| ==> !Apply(rows, c).0[i].succeeded
  {
    hide RecordFailure;
    hide Clear;
    match c {
      case Check(_, _) =>
      case Reset(k) =>
        ClearKeyRows(rows, k, key);
        ClearKeepsFailures(rows, k);
      case Record(k, at) => RecordBoundedAt(rows, k, at, key);
    }
  }

  /** Whatever the clock does, every call keeps the bound, and leaves the rows of every other key as they were. */
  lemma {:induction false} StepBounded(rows: seq<Attempt>, c: Call, other: string)
    requires Bounded(rows)
    ensures Bounded(Apply(rows, c).0)
    ensures other != c.key ==> KeyRows(Apply(rows, c).0, other) == KeyRows(rows, other)
  {
    forall key ensures |KeyRows(Apply(rows, c).0, key)| <= LOGIN_LIMIT {
      assert |KeyRows(rows, key)| <= LOGIN_LIMIT;
      StepBoundedAt(rows, c, key);
    }
    assert |KeyRows(rows, other)| <= LOGIN_LIMIT;
    StepBoundedAt(rows, c, other);
  }

  /** What recording a failure means: it answers as the check would; unless it is refused, one more failure counts from
      then on; no expired row of the key is left; and the rows of other keys are as they were. */
  lemma {:induction false} RecordMeans(rows: seq<Attempt>, key: string, now: Time, other: string)
    ensures var (rows', limited) := RecordFailure(rows, key, now);
            && (limited <==> IsLimited(rows, key, now))
            && Recent(rows', key, now) == Recent(rows, key, now) + (if limited then 0 else 1)
            && (forall i :: 0 <= i < |rows'| && rows'[i].key == key ==> rows'[i].at > now - LOGIN_WINDOW)
            && (other != key ==> KeyRows(rows', other) == KeyRows(rows, other))
  {
    var kept := Purge(rows, key, now - LOGIN_WINDOW);
    PurgeCount(rows, key, now - LOGIN_WINDOW, key, now - LOGIN_WINDOW);
    AppendCount(kept, Attempt(key, now, false), key, now - LOGIN_WINDOW);
    PurgeLeavesYoung(rows, key, now - LOGIN_WINDOW);
    if other != key {
      PurgeOtherRows(rows, key, now - LOGIN_WINDOW, other);
      AppendKeyRows(kept, Attempt(key, now, false), other);
    }
  }

  // ---------------------------------------------------------------- the rows that a call leaves, one by one

  /** Where the failures of the key in the 15 minutes up to now stand. */
  ghost function Counted(rows: seq<Attempt>, key: string, now: Time): set<int> {
    set i | 0 <= i < |rows| && rows[i].key == key && !rows[i].succeeded && now < rows[i].at + 900_000_000_000
  }

  /** A key is limited exactly when five of its failures are less than 15 minutes old. */
  lemma {:induction false} LimitedExactly(rows: seq<Attempt>, key: string, now: Time)
    ensures Recent(rows, key, now) == |Counted(rows, key, now)|
    ensures IsLimited(rows, key, now) <==> |Counted(rows, key, now)| >= 5
  {
    if rows != [] {
      var n := |rows| - 1;
      LimitedExactly(rows[..n], key, now);
      var counted := Counted(rows[..n], key, now);
      assert n !in counted;
      assert Counted(rows, key, now) == if n in Counted(rows, key, now) then counted + {n} else counted;
    } else {
      assert Counted(rows, key, now) == {};
    }
  }

  /** How often a row is left when the key's expired failures are deleted and one failure is added. */
  ghost predicate Recorded(rows: seq<Attempt>, rows': seq<Attempt>, key: string, now: Time) {
    forall r :: multiset(rows')[r] ==
                (if r.key == key && r.at + 900_000_000_000 <= now then 0 else multiset(rows)[r])
                + if r == Attempt(key, now, false) then 1 else 0
  }

  /** How often a row is left when all rows of the key are deleted. */
  ghost predicate Cleared(rows: seq<Attempt>, rows': seq<Attempt>, key: string) {
    forall r :: multiset(rows')[r] == if r.key == key then 0 else multiset(rows)[r]
  }

  lemma {:induction false} PurgedRow(rows: seq<Attempt>, key: string, cutoff: Time, r: Attempt)
    ensures multiset(Purge(rows, key, cutoff))[r] == if r.key == key && r.at <= cutoff then 0 else multiset(rows)[r]
  {
    if rows != [] {
      PurgedRow(rows[..|rows| - 1], key, cutoff, r);
      assert rows == rows[..|rows| - 1] + [rows[|rows| - 1]];
    }
  }

  /** Clearing deletes every row of the key and no other. */
  lemma {:induction false} ClearExactly(rows: seq<Attempt>, key: string)
    ensures Cleared(rows, Clear(rows, key), key)
  {
    forall r ensures multiset(Clear(rows, key))[r] == if r.key == key then 0 else multiset(rows)[r] {
      ClearedRow(rows, key, r);
    }
  }

  lemma {:induction false} ClearedRow(rows: seq<Attempt>, key: string, r: Attempt)
    ensures multiset(Clear(rows, key))[r] == if r.key == key then 0 else multiset(rows)[r]
  {
    if rows != [] {
      ClearedRow(rows[..|rows| - 1], key, r);
      assert rows == rows[..|rows| - 1] + [rows[|rows| - 1]];
    }
  }

  /** A failure is recorded unless the key is limited: one row is added and the key's rows of 15 minutes or more are
      deleted, and no other row. */
  lemma {:induction false} RecordExactly(rows: seq<Attempt>, key: string, now: Time)
    ensures RecordFailure(rows, key, now).1 <==> |Counted(rows, key, now)| >= 5
    ensures !RecordFailure(rows, key, now).1 ==> Recorded(rows, RecordFailure(rows, key, now).0, key, now)
  {
    LimitedExactly(rows, key, now);
    PurgeCount(rows, key, now - LOGIN_WINDOW, key, now - LOGIN_WINDOW);
    if !RecordFailure(rows, key, now).1 {
      forall r ensures multiset(RecordFailure(rows, key, now).0)[r] ==
                       (if r.key == key && r.at + 900_000_000_000 <= now then 0 else multiset(rows)[r])
                       + if r == Attempt(key, now, false) then 1 else 0
      {
        PurgedRow(rows, key, now - LOGIN_WINDOW, r);
      }
    }
  }

  // ---------------------------------------------------------------- locking and unlocking

  /** A count reaches the number of the key's rows exactly when every one of them is inside the window. */
  lemma {:induction false} CountAll(rows: seq<Attempt>, key: string, cutoff: Time)
    requires forall i :: 0 <= i < |rows| ==> !rows[i].succeeded
    ensures Count(rows, key, cutoff) <= |KeyRows(rows, key)|
    ensures Count(rows, key, cutoff) == |KeyRows(rows, key)| <==> forall r :: r in KeyRows(rows, key) ==> r.at > cutoff
  {
    if rows != [] {
      CountAll(rows[..|rows| - 1], key, cutoff);
      var last := rows[|rows| - 1];
      if last.key == key {
        assert KeyRows(rows, key)[|KeyRows(rows, key)| - 1] == last;
        assert last in KeyRows(rows, key);
        forall r ensures r in KeyRows(rows, key) <==> r in KeyRows(rows[..|rows| - 1], key) || r == last {
        }
      } else {
        assert KeyRows(rows, key) == KeyRows(rows[..|rows| - 1], key);
      }
    }
  }

  /** A key is limited exactly while it has five failures and the oldest of them is less than 15 minutes old: it
      unlocks at that failure's time plus 15 minutes. */
  lemma {:induction false} UnlocksAtOldest(rows: seq<Attempt>, key: string, now: Time)
    requires Bounded(rows)
    ensures IsLimited(rows, key, now) <==>
            |KeyRows(rows, key)| == LOGIN_LIMIT && forall r :: r in KeyRows(rows, key) ==> now < r.at + LOGIN_WINDOW
  {
    CountAll(rows, key, now - LOGIN_WINDOW);
    assert |KeyRows(rows, key)| <= LOGIN_LIMIT;
  }

  datatype Outcome = TooMany | Rejected | Accepted

  /** What a login does to the attempts of its key: check first, then record a failure or clear the key. */
  function Attempted(rows: seq<Attempt>, key: string, now: Time, credentialsGood: bool): (seq<Attempt>, Outcome) {
    if IsLimited(rows, key, now) then (rows, TooMany)
    else if credentialsGood then (Clear(rows, key), Accepted)
    else
      var (rows', limited) := RecordFailure(rows, key, now);
      (rows', if limited then TooMany else Rejected)
  }

  datatype Login = Login(now: Time, credentialsGood: bool)

  function AfterLogins(rows: seq<Attempt>, key: string, logins: seq<Login>): seq<Attempt> {
    if logins == [] then rows else
      Attempted(AfterLogins(rows, key, logins[..|logins| - 1]), key, logins[|logins| - 1].now,
                logins[|logins| - 1].credentialsGood).0
  }

  /** However many logins are attempted before the unlock time, with good or bad credentials, each is limited and
      none moves the unlock time: the table does not change at all. */
  lemma {:induction false} LockedUntilOldestExpires(rows: seq<Attempt>, key: string, unlock: Time, logins: seq<Login>)
    requires Bounded(rows) && |KeyRows(rows, key)| == LOGIN_LIMIT
    requires forall r :: r in KeyRows(rows, key) ==> unlock <= r.at + LOGIN_WINDOW
    requires exists r :: r in KeyRows(rows, key) && unlock == r.at + LOGIN_WINDOW
    requires forall i :: 0 <= i < |logins| ==> logins[i].now < unlock
    ensures AfterLogins(rows, key, logins) == rows
    ensures forall now, good :: Attempted(AfterLogins(rows, key, logins), key, now, good).1 == TooMany <==> now < unlock
  {
    forall now ensures IsLimited(rows, key, now) <==> now < unlock {
      UnlocksAtOldest(rows, key, now);
    }
    if logins != [] {
      var n := |logins| - 1;
      LockedUntilOldestExpires(rows, key, unlock, logins[..n]);
      assert IsLimited(rows, key, logins[n].now);
    }
    forall now, good ensures Attempted(rows, key, now, good).1 == TooMany <==> now < unlock {
      NeverLimitedLate(rows, key, now, good);
    }
  }

  /** The locked count agrees with the unlocked check when nothing happens in between. */
  lemma {:induction false} NeverLimitedLate(rows: seq<Attempt>, key: string, now: Time, good: bool)
    ensures Attempted(rows, key, now, good).1 == TooMany <==> IsLimited(rows, key, now)
  {
    PurgeCount(rows, key, now - LOGIN_WINDOW, key, now - LOGIN_WINDOW);
  }

  // ---------------------------------------------------------------- a clock that goes backwards

  /** The calls of n failures of a key at one time, and the rows that they leave. */
  function Failing(key: string, at: Time, n: nat): seq<Call> {
    seq(n, _ => Record(key, at))
  }

  function Failures(key: string, at: Time, n: nat): seq<Attempt> {
    seq(n, _ => Attempt(key, at, false))
  }

  lemma {:induction false} AppendPurge(rows: seq<Attempt>, row: Attempt, key: string, cutoff: Time)
    ensures Purge(rows + [row], key, cutoff) ==
            Purge(rows, key, cutoff) + if row.key == key && row.at <= cutoff then [] else [row]
  {
    assert (rows + [row])[..|rows|] == rows;
  }

  /** Failures of one key at one time are counted and kept together, or not at all. */
  lemma {:induction false} CountAlike(rows: seq<Attempt>, key: string, at: Time, cutoff: Time)
    requires forall i :: 0 <= i < |rows| ==> rows[i] == Attempt(key, at, false)
    ensures Count(rows, key, cutoff) == if at > cutoff then |rows| else 0
    ensures Purge(rows, key, cutoff) == if at > cutoff then rows else []
  {
    if rows != [] {
      CountAlike(rows[..|rows| - 1], key, at, cutoff);
      assert rows == rows[..|rows| - 1] + [rows[|rows| - 1]];
    }
  }

  /** The tables after a run of calls. */
  function Rows(rows: seq<Attempt>, calls: seq<Call>): seq<Attempt> {
    if calls == [] then rows else Apply(Rows(rows, calls[..|calls| - 1]), calls[|calls| - 1]).0
  }

  function Log(log: seq<Attempt>, calls: seq<Call>): seq<Attempt> {
    if calls == [] then log else ApplyLog(Log(log, calls[..|calls| - 1]), calls[|calls| - 1]).0
  }

  /** The answers to a longer run: those to its front, and one more. */
  lemma {:induction false} AnswersAppended(rows: seq<Attempt>, log: seq<Attempt>, calls: seq<Call>, c: Call)
    ensures Answers(rows, calls + [c]) == Answers(rows, calls) + [Apply(Rows(rows, calls), c).1]
    ensures LogAnswers(log, calls + [c]) == LogAnswers(log, calls) + [ApplyLog(Log(log, calls), c).1]
    decreases |calls|
  {
    hide Apply;
    hide ApplyLog;
    if calls == [] {
      assert calls + [c] == [c] && [c][1..] == calls;
    } else {
      var rest := calls[1..];
      assert (calls + [c])[0] == calls[0] && (calls + [c])[1..] == rest + [c];
      AnswersAppended(Apply(rows, calls[0]).0, ApplyLog(log, calls[0]).0, rest, c);
      RowsFromFront(rows, log, calls);
    }
  }

  lemma {:induction false} RowsFromFront(rows: seq<Attempt>, log: seq<Attempt>, calls: seq<Call>)
    requires calls != []
    ensures Rows(rows, calls) == Rows(Apply(rows, calls[0]).0, calls[1..])
    ensures Log(log, calls) == Log(ApplyLog(log, calls[0]).0, calls[1..])
    decreases |calls|
  {
    var front := calls[..|calls| - 1];
    if front == [] {
      assert calls[1..] == [];
    } else {
      RowsFromFront(rows, log, front);
      assert calls[1..][..|calls| - 2] == front[1..];
    }
  }

  /** Up to the limit, failures at one time are stored by both tables. */
  lemma {:induction false} FailuresReached(key: string, at: Time, n: nat)
    requires n <= LOGIN_LIMIT
    ensures Rows([], Failing(key, at, n)) == Failures(key, at, n) == Log([], Failing(key, at, n))
  {
    if n > 0 {
      hide Apply;
      hide ApplyLog;
      var front := Failing(key, at, n - 1);
      FailuresReached(key, at, n - 1);
      assert Failing(key, at, n)[..|Failing(key, at, n)| - 1] == front;
      FailureStored(key, at, n - 1);
    }
  }

  lemma {:induction false} FailureStored(key: string, at: Time, n: nat)
    requires n < LOGIN_LIMIT
    ensures Apply(Failures(key, at, n), Record(key, at)).0 == Failures(key, at, n + 1)
    ensures ApplyLog(Failures(key, at, n), Record(key, at)).0 == Failures(key, at, n + 1)
  {
    hide Count;
    hide Purge;
    CountAlike(Failures(key, at, n), key, at, at - LOGIN_WINDOW);
    assert Failures(key, at, n + 1) == Failures(key, at, n) + [Attempt(key, at, false)];
  }

  lemma {:induction false} EmptyTable(key: string, cutoff: Time)
    ensures Count([], key, cutoff) == 0 && Purge([], key, cutoff) == []
  {
  }

  /** A failure recorded at a purges the failures of a - 15 minutes; a reading b before a no longer sees them. */
  lemma {:induction false} PurgedTooEarly(key: string, a: Time, b: Time, next: Call)
    requires a > b && !next.Reset? && next.key == key && next.now == b
    ensures var rows := Failures(key, a - LOGIN_WINDOW, LOGIN_LIMIT);
            Apply(Apply(rows, Record(key, a)).0, next).1 != ApplyLog(ApplyLog(rows, Record(key, a)).0, next).1
  {
    hide Count;
    hide Purge;
    var early := a - LOGIN_WINDOW;
    EmptyTable(key, b - LOGIN_WINDOW);
    EmptyTable(key, early);
    var rows := Failures(key, early, LOGIN_LIMIT);
    var late := Attempt(key, a, false);
    CountAlike(rows, key, early, early);
    CountAlike(rows, key, early, b - LOGIN_WINDOW);
    AppendCount([], late, key, b - LOGIN_WINDOW);
    AppendPurge([], late, key, b - LOGIN_WINDOW);
    AppendCount(rows, late, key, b - LOGIN_WINDOW);
    assert Apply(rows, Record(key, a)).0 == [] + [late];
    assert ApplyLog(rows, Record(key, a)).0 == rows + [late];
  }

  /** For every clock that goes backwards the two tables come to differ, from the empty table on: after five failures, a
      sixth 15 minutes later purges them, and any earlier reading of the key is answered differently. */
  lemma {:induction false} BackwardClockDisagrees(key: string, a: Time, b: Time, next: Call)
    requires a > b && !next.Reset? && next.key == key && next.now == b
    ensures var calls := Failing(key, a - LOGIN_WINDOW, LOGIN_LIMIT) + [Record(key, a)];
            ClockForward(calls) && Answers([], calls + [next]) != LogAnswers([], calls + [next])
  {
    hide Answers;
    hide LogAnswers;
    hide Apply;
    hide ApplyLog;
    hide Failures;
    var failing := Failing(key, a - LOGIN_WINDOW, LOGIN_LIMIT);
    var calls := failing + [Record(key, a)];
    FailuresReached(key, a - LOGIN_WINDOW, LOGIN_LIMIT);
    assert calls[..|failing|] == failing;
    AnswersAppended([], [], calls, next);
    PurgedTooEarly(key, a, b, next);
    assert Answers([], calls + [next])[|Answers([], calls)|] !=
             LogAnswers([], calls + [next])[|LogAnswers([], calls)|] by {
      SameLength([], [], calls);
    }
  }

  lemma {:induction false} SameLength(rows: seq<Attempt>, log: seq<Attempt>, calls: seq<Call>)
    ensures |Answers(rows, calls)| == |calls| == |LogAnswers(log, calls)|
    decreases |calls|
  {
    if calls != [] {
      SameLength(Apply(rows, calls[0]).0, ApplyLog(log, calls[0]).0, calls[1..]);
    }
  }

  /** A run of calls that ends with a failure of the key recorded at this time. */
  ghost predicate EndsWithFailure(calls: seq<Call>, key: string, at: Time) {
    calls != [] && calls[|calls| - 1] == Record(key, at)
  }

  ghost predicate AgreeWith(calls: seq<Call>, next: Call) {
    Answers([], calls + [next]) == LogAnswers([], calls + [next])
  }

  /** Exactly when the clock of a key does not go back from one reading to the next do the two tables agree on that next
      reading, whatever calls, with clocks that go forward, came before. */
  lemma {:induction false} AgreeExactlyForward(key: string, a: Time, next: Call)
    requires !next.Reset? && next.key == key
    ensures a <= next.now <==>
              forall calls :: ClockForward(calls) && EndsWithFailure(calls, key, a) ==> AgreeWith(calls, next)
  {
    if a <= next.now {
      forall calls | ClockForward(calls) && EndsWithFailure(calls, key, a) ensures AgreeWith(calls, next) {
        var longer := calls + [next];
        forall i | 0 <= i < |calls| && !calls[i].Reset? && calls[i].key == key ensures calls[i].now <= next.now {
          assert calls[|calls| - 1] == Record(key, a);
        }
        PurgedAnswersAreExact(longer);
      }
    } else {
      var calls := Failing(key, a - LOGIN_WINDOW, LOGIN_LIMIT) + [Record(key, a)];
      BackwardClockDisagrees(key, a, next.now, next);
      assert ClockForward(calls) && EndsWithFailure(calls, key, a) && !AgreeWith(calls, next);
    }
  }
}

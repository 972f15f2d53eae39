/** What the login limiter means for whole runs of the service. */
module LoginGuarantees {
  import opened Common
  import opened Protocol
  import opened Sessions
  import LoginLimiter

  /** The calls that touch a rate key: the credential checks under it. */
  predicate ChecksKey(cfg: Settings, c: Call, key: string) {
    && c.LoginCheck? && cfg.env.normalizeEmail(c.email) != ""
    && cfg.env.rateKey(c.remoteAddr, cfg.env.normalizeEmail(c.email)) == key
  }

  /** A call as a call of the limiter; None when it leaves the attempts alone. */
  function LimiterCall(cfg: Settings, s: State, c: Call): Option<LoginLimiter.Call> {
    if !c.LoginCheck? || cfg.env.normalizeEmail(c.email) == "" then None else
      var key := cfg.env.rateKey(c.remoteAddr, cfg.env.normalizeEmail(c.email));
      if LoginLimiter.IsLimited(s.db.attempts, key, c.now) then None
      else if CredentialsGood(cfg, s.db.tables, c.email, c.password) then Some(LoginLimiter.Reset(key))
      else Some(LoginLimiter.Record(key, c.now))
  }

  lemma {:induction false} StepAttempts(cfg: Settings, s: State, c: Call)
    requires Legal(s, c)
    ensures var l := LimiterCall(cfg, s, c);
            Step(cfg, s, c).db.attempts ==
              if l.None? then s.db.attempts else LoginLimiter.Apply(s.db.attempts, l.value).0
  {
  }

  /** In every run no key ever has more than five stored failures. */
  lemma {:induction false} RunBounded(cfg: Settings, s: State, calls: seq<Call>)
    requires LoginLimiter.Bounded(s.db.attempts) && IsRun(cfg, s, calls)
    ensures LoginLimiter.Bounded(After(cfg, s, calls).db.attempts)
  {
    hide Step;
    hide LoginLimiter.Bounded;
    if calls != [] {
      var front, c := calls[..|calls| - 1], calls[|calls| - 1];
      var before := After(cfg, s, front);
      RunBounded(cfg, s, front);
      StepAttempts(cfg, before, c);
      var l := LimiterCall(cfg, before, c);
      if l.Some? {
        LoginLimiter.StepBounded(before.db.attempts, l.value, "");
      }
    }
  }

  /** The key has five failures, and the oldest of them expires at this time. */
  ghost predicate LockedUntil(rows: seq<LoginLimiter.Attempt>, key: string, unlock: Time) {
    var mine := LoginLimiter.KeyRows(rows, key);
    && |mine| == LoginLimiter.LOGIN_LIMIT
    && (forall r :: r in mine ==> unlock <= r.at + LoginLimiter.LOGIN_WINDOW)
    && exists r :: r in mine && unlock == r.at + LoginLimiter.LOGIN_WINDOW
  }

  /** A locked key is limited exactly before its unlock time. */
  lemma {:induction false} LimitedExactly(rows: seq<LoginLimiter.Attempt>, key: string, unlock: Time, now: Time)
    requires LoginLimiter.Bounded(rows) && LockedUntil(rows, key, unlock)
    ensures LoginLimiter.IsLimited(rows, key, now) <==> now < unlock
  {
    LoginLimiter.UnlocksAtOldest(rows, key, now);
  }

  /** No check of the key from call n on reads its clock at or after the unlock time. */
  ghost predicate ChecksBefore(cfg: Settings, calls: seq<Call>, n: nat, key: string, unlock: Time) {
    forall j :: n <= j < |calls| && ChecksKey(cfg, calls[j], key) ==> calls[j].now < unlock
  }

  lemma {:induction false} StepStaysLocked(cfg: Settings, s: State, c: Call, key: string, unlock: Time)
    requires LoginLimiter.Bounded(s.db.attempts) && LockedUntil(s.db.attempts, key, unlock) && Legal(s, c)
    requires ChecksKey(cfg, c, key) ==> c.now < unlock
    ensures LoginLimiter.KeyRows(Step(cfg, s, c).db.attempts, key) == LoginLimiter.KeyRows(s.db.attempts, key)
    ensures ChecksKey(cfg, c, key) ==> Step(cfg, s, c) == s
  {
    StepAttempts(cfg, s, c);
    if ChecksKey(cfg, c, key) {
      LimitedExactly(s.db.attempts, key, unlock, c.now);
    } else {
      var l := LimiterCall(cfg, s, c);
      if l.Some? {
        LoginLimiter.StepBounded(s.db.attempts, l.value, key);
      }
    }
  }

  /** In every run: from the moment a key has five failures, whatever else happens, no check of that key made before
      the oldest of them is 15 minutes old changes anything, so the unlock time never moves; and a check of the key,
      with good or bad credentials, is rate limited exactly before that time. */
  lemma {:induction false} LockedInEveryRun(cfg: Settings, s: State, calls: seq<Call>, n: nat, key: string,
                                            unlock: Time)
    requires LoginLimiter.Bounded(s.db.attempts) && IsRun(cfg, s, calls) && n <= |calls| && IsRun(cfg, s, calls[..n])
    requires LockedUntil(After(cfg, s, calls[..n]).db.attempts, key, unlock) && ChecksBefore(cfg, calls, n, key, unlock)
    ensures LockedUntil(After(cfg, s, calls).db.attempts, key, unlock)
    ensures forall c :: ChecksKey(cfg, c, key) ==>
              (CheckCredentials(cfg, After(cfg, s, calls).db, c.email, c.password, c.remoteAddr, c.now).1 ==
               Failure(RateLimited)
               <==> c.now < unlock)
  {
    StaysLocked(cfg, s, calls, n, key, unlock);
    RunBounded(cfg, s, calls);
    var db := After(cfg, s, calls).db;
    forall c | ChecksKey(cfg, c, key)
      ensures CheckCredentials(cfg, db, c.email, c.password, c.remoteAddr, c.now).1 == Failure(RateLimited) <==>
                c.now < unlock
    {
      LimitedExactly(db.attempts, key, unlock, c.now);
      CheckIsAttempt(cfg, db, c.email, c.password, c.remoteAddr, c.now);
      LoginLimiter.NeverLimitedLate(db.attempts, key, c.now, CredentialsGood(cfg, db.tables, c.email, c.password));
    }
  }

  lemma {:induction false} StaysLocked(cfg: Settings, s: State, calls: seq<Call>, n: nat, key: string, unlock: Time)
    requires LoginLimiter.Bounded(s.db.attempts) && IsRun(cfg, s, calls) && n <= |calls| && IsRun(cfg, s, calls[..n])
    requires LockedUntil(After(cfg, s, calls[..n]).db.attempts, key, unlock) && ChecksBefore(cfg, calls, n, key, unlock)
    ensures LockedUntil(After(cfg, s, calls).db.attempts, key, unlock)
  {
    hide Step;
    hide LoginLimiter.Bounded;
    if n < |calls| {
      var front, c := calls[..|calls| - 1], calls[|calls| - 1];
      assert front[..n] == calls[..n];
      StaysLocked(cfg, s, front, n, key, unlock);
      RunBounded(cfg, s, front);
      StepStaysLocked(cfg, After(cfg, s, front), c, key, unlock);
    } else {
      assert calls[..n] == calls;
    }
  }
}

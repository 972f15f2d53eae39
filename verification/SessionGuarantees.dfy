/** What holds of sessions and requests in every run of the service. */
module SessionGuarantees {
  import opened Common
  import opened Directory
  import opened RefreshTokens
  import opened RefreshHistory
  import opened Protocol
  import opened Sessions

  // ---------------------------------------------------------------- runs

  lemma {:induction false} RunPrefix(cfg: Settings, s: State, calls: seq<Call>, n: nat)
    requires IsRun(cfg, s, calls) && n <= |calls|
    ensures IsRun(cfg, s, calls[..n])
  {
    if n < |calls| {
      RunPrefix(cfg, s, calls[..|calls| - 1], n);
      assert calls[..|calls| - 1][..n] == calls[..n];
    } else {
      assert calls[..n] == calls;
    }
  }

  lemma {:induction false} InitialInv(cfg: Settings, s: State)
    requires Initial(s)
    ensures Inv(cfg, s)
  {
  }

  lemma {:induction false} Reachable(cfg: Settings, s: State, calls: seq<Call>)
    requires Initial(s) && IsRun(cfg, s, calls)
    ensures Inv(cfg, After(cfg, s, calls))
  {
    InitialInv(cfg, s);
    RunInv(cfg, s, calls);
  }

  ghost predicate KnownFamily(rows: seq<TokenRow>, family: string) { !FamilyUnknown(rows, family) }

  /** Live: neither used nor revoked nor expired. */
  ghost predicate Live(row: TokenRow, now: Time) {
    row.usedAt.None? && row.revokedAt.None? && row.expiresAt > now
  }

  ghost predicate LiveIn(rows: seq<TokenRow>, family: string, i: int, now: Time) {
    0 <= i < |rows| && rows[i].family == family && Live(rows[i], now)
  }

  ghost predicate AtMostOneLive(rows: seq<TokenRow>, family: string) {
    forall i, j, now :: LiveIn(rows, family, i, now) && LiveIn(rows, family, j, now) ==> i == j
  }

  /** In every reachable state each family has exactly one unused token, every used token is revoked, so at most one
      token of a family is ever live; its tokens share one user; and it has one row for its login and one for each of
      its successful refreshes. */
  lemma {:induction false} FamiliesOfEveryRun(cfg: Settings, s: State, calls: seq<Call>, family: string)
    requires Initial(s) && IsRun(cfg, s, calls)
    ensures var s' := After(cfg, s, calls);
            var rows := s'.db.tokens;
            && UsedIsRevoked(rows) && OneUser(rows)
            && (KnownFamily(rows, family) ==> HasOneUnused(rows, family))
            && AtMostOneLive(rows, family)
            && |FamilyRows(rows, family)| == |IssuedFor(s'.issued, family)| && OneLogin(IssuedFor(s'.issued, family))
  {
    Reachable(cfg, s, calls);
    var s' := After(cfg, s, calls);
    assert FamilyInStep(cfg, s', family);
    LiveIsUnused(s'.db.tokens, family);
  }

  lemma {:induction false} LiveIsUnused(rows: seq<TokenRow>, family: string)
    requires OneUnused(rows)
    ensures KnownFamily(rows, family) ==> HasOneUnused(rows, family)
    ensures AtMostOneLive(rows, family)
  {
    if KnownFamily(rows, family) {
      var k :| 0 <= k < |rows| && rows[k].family == family;
      assert HasOneUnused(rows, rows[k].family);
      var n :| UnusedOnlyAt(rows, family, n);
      assert forall i, now :: LiveIn(rows, family, i, now) ==> UnusedIn(rows, family, i);
    }
  }

  // ---------------------------------------------------------------- revoked families

  /** A refresh with a used token reports reuse, whatever else holds of the token or its user, and the report leaves the
      family revoked. */
  lemma {:induction false} UsedTokenReportsReuse(cfg: Settings, s: State, c: Call)
    requires Inv(cfg, s) && c.RefreshCall? && c.raw != ""
    requires var k := IndexOf(s.db.tokens, cfg.env.hashToken(c.raw)); k < |s.db.tokens| && s.db.tokens[k].usedAt.Some?
    ensures Refresh(cfg, s.db, c.raw, c.now, c.newRaw, c.tokenID).1 == Failure(RefreshReuse)
    ensures FamilyRevoked(Step(cfg, s, c).db.tokens, FamilyOf(s.db.tokens, cfg.env.hashToken(c.raw)).value)
  {
    var op := TokenOp(cfg, s, c).value;
    UsedReportsReuse(s.db.tokens, s.db.tables.users, op.hash, op.newHash, op.newExpiry, op.newId, op.now);
    RefreshIsRotation(cfg, s, c);
  }

  lemma {:induction false} LogoutRevokesFamily(cfg: Settings, s: State, c: Call)
    requires c.LogoutCall? && c.raw != "" && FamilyOf(s.db.tokens, cfg.env.hashToken(c.raw)).Some?
    ensures FamilyRevoked(Step(cfg, s, c).db.tokens, FamilyOf(s.db.tokens, cfg.env.hashToken(c.raw)).value)
  {
    LogoutRevokes(s.db.tokens, cfg.env.hashToken(c.raw), c.now);
  }

  /** One step of a revoked family's future. */
  lemma {:induction false} RevokedStep(cfg: Settings, s: State, c: Call, family: string)
    requires Inv(cfg, s) && Legal(s, c) && FamilyRevoked(s.db.tokens, family) && KnownFamily(s.db.tokens, family)
    ensures var s' := Step(cfg, s, c);
            && FamilyRevoked(s'.db.tokens, family) && KnownFamily(s'.db.tokens, family)
            && FamilyRows(s'.db.tokens, family) == FamilyRows(s.db.tokens, family)
            && IssuedFor(s'.issued, family) == IssuedFor(s.issued, family)
  {
    var s' := Step(cfg, s, c);
    StepTokens(cfg, s, c);
    var op := TokenOp(cfg, s, c);
    if op.Some? {
      RevokedFamilyFrozen(s.db.tokens, s.db.tables.users, op.value, family);
      StepKeeps(s.db.tokens, s.db.tables.users, op.value);
      var k :| 0 <= k < |s.db.tokens| && s.db.tokens[k].family == family;
      assert RowKeeps(s.db.tokens[k], s'.db.tokens[k]);
    }
    if c.RefreshCall? && c.raw != "" {
      RefreshIsRotation(cfg, s, c);
    }
    if |s'.issued| > |s.issued| {
      IssuedForAppended(s.issued, s'.issued[|s.issued|], family);
    }
  }

  /** Once every token of a family is revoked (by a detected reuse or a completed logout), then in any continuation its
      rows stay exactly as they are, no token is ever added to it, no access token is ever issued for it, and no
      refresh with any of its tokens succeeds. */
  lemma {:induction false} RevokedForever(cfg: Settings, s: State, calls: seq<Call>, n: nat, family: string)
    requires Initial(s) && IsRun(cfg, s, calls) && n <= |calls| && IsRun(cfg, s, calls[..n])
    requires var past := After(cfg, s, calls[..n]);
             FamilyRevoked(past.db.tokens, family) && KnownFamily(past.db.tokens, family)
    ensures var past := After(cfg, s, calls[..n]);
            var s' := After(cfg, s, calls);
            && FamilyRevoked(s'.db.tokens, family) && KnownFamily(s'.db.tokens, family)
            && FamilyRows(s'.db.tokens, family) == FamilyRows(past.db.tokens, family)
            && IssuedFor(s'.issued, family) == IssuedFor(past.issued, family)
            && forall raw, now, newRaw, tokenID :: FamilyOf(s'.db.tokens, cfg.env.hashToken(raw)) == Some(family) ==>
                 !Refresh(cfg, s'.db, raw, now, newRaw, tokenID).1.Success?
  {
    var s' := After(cfg, s, calls);
    if n < |calls| {
      var front := calls[..|calls| - 1];
      assert front[..n] == calls[..n];
      RevokedForever(cfg, s, front, n, family);
      Reachable(cfg, s, front);
      RevokedStep(cfg, After(cfg, s, front), calls[|calls| - 1], family);
    } else {
      assert calls[..n] == calls;
    }
    Reachable(cfg, s, calls);
    forall raw, now, newRaw, tokenID | FamilyOf(s'.db.tokens, cfg.env.hashToken(raw)) == Some(family)
      ensures !Refresh(cfg, s'.db, raw, now, newRaw, tokenID).1.Success?
    {
      RevokedRefused(cfg, s', RefreshCall(raw, now, newRaw, tokenID), family);
    }
  }

  lemma {:induction false} RevokedRefused(cfg: Settings, s: State, c: Call, family: string)
    requires Inv(cfg, s) && c.RefreshCall? && FamilyRevoked(s.db.tokens, family)
    requires FamilyOf(s.db.tokens, cfg.env.hashToken(c.raw)) == Some(family)
    ensures !Refresh(cfg, s.db, c.raw, c.now, c.newRaw, c.tokenID).1.Success?
  {
    if c.raw != "" {
      RefreshIsRotation(cfg, s, c);
      RevokedFamilyFrozen(s.db.tokens, s.db.tables.users, TokenOp(cfg, s, c).value, family);
    }
  }

  // ---------------------------------------------------------------- how long a family lasts

  /** When the family's last login or successful refresh was. */
  ghost predicate LastRefreshed(s: State, family: string, at: Time) {
    var tokens := IssuedFor(s.issued, family);
    tokens != [] && tokens[|tokens| - 1].at == at
  }

  /** In every reachable state a refresh succeeds exactly when its token is stored and neither used nor revoked, the
      family's last login or refresh is less than a refresh lifetime ago, and the user is active; besides, the new token
      must not collide with a stored one. The expiry of the presented row plays no other part. */
  lemma {:induction false} RefreshExactly(cfg: Settings, s: State, c: Call, at: Time)
    requires Inv(cfg, s) && c.RefreshCall? && c.raw != ""
    requires var k := IndexOf(s.db.tokens, cfg.env.hashToken(c.raw));
             k < |s.db.tokens| && s.db.tokens[k].usedAt.None? ==> LastRefreshed(s, s.db.tokens[k].family, at)
    ensures var rows := s.db.tokens;
            var k := IndexOf(rows, cfg.env.hashToken(c.raw));
            Refresh(cfg, s.db, c.raw, c.now, c.newRaw, c.tokenID).1.Success? <==>
            && k < |rows| && rows[k].usedAt.None? && rows[k].revokedAt.None?
            && c.now < at + cfg.refreshTTL
            && ActiveOf(s.db.tables.users, rows[k].userId) == Some(true)
            && IndexOf(rows, cfg.env.hashToken(c.newRaw)) == |rows|
  {
    var rows := s.db.tokens;
    var k := IndexOf(rows, cfg.env.hashToken(c.raw));
    RefreshIsRotation(cfg, s, c);
    if k < |rows| {
      assert FamilyInStep(cfg, s, rows[k].family);
      assert rows[k].usedAt.None? ==> UnusedIn(rows, rows[k].family, k);
      SameHashes(rows, MarkUsed(rows, rows[k].id, c.now), cfg.env.hashToken(c.newRaw));
    }
  }

  /** A family that is not revoked has one token that is neither used nor revoked, and that token expires a refresh
      lifetime after the family's last login or refresh: whoever refreshes in time stays able to. */
  lemma {:induction false} StaysRefreshable(cfg: Settings, s: State, family: string) returns (k: nat, at: Time)
    requires Inv(cfg, s) && !FamilyRevoked(s.db.tokens, family)
    ensures UnusedOnlyAt(s.db.tokens, family, k) && s.db.tokens[k].revokedAt.None?
    ensures LastRefreshed(s, family, at) && s.db.tokens[k].expiresAt == at + cfg.refreshTTL
    ensures forall c: Call :: c.RefreshCall? && c.raw != "" && cfg.env.hashToken(c.raw) == s.db.tokens[k].hash ==>
              (Refresh(cfg, s.db, c.raw, c.now, c.newRaw, c.tokenID).1.Success? <==>
               && c.now < at + cfg.refreshTTL && ActiveOf(s.db.tables.users, s.db.tokens[k].userId) == Some(true)
               && IndexOf(s.db.tokens, cfg.env.hashToken(c.newRaw)) == |s.db.tokens|)
  {
    var rows := s.db.tokens;
    var open :| 0 <= open < |rows| && rows[open].family == family && rows[open].revokedAt.None?;
    assert UnusedIn(rows, family, open);
    assert HasOneUnused(rows, rows[open].family);
    k := open;
    assert FamilyInStep(cfg, s, family);
    var tokens := IssuedFor(s.issued, family);
    at := tokens[|tokens| - 1].at;
    forall c: Call | c.RefreshCall? && c.raw != "" && cfg.env.hashToken(c.raw) == rows[k].hash
      ensures Refresh(cfg, s.db, c.raw, c.now, c.newRaw, c.tokenID).1.Success? <==>
              && c.now < at + cfg.refreshTTL && ActiveOf(s.db.tables.users, rows[k].userId) == Some(true)
              && IndexOf(rows, cfg.env.hashToken(c.newRaw)) == |rows|
    {
      assert IndexOf(rows, rows[k].hash) == k;
      RefreshExactly(cfg, s, c, at);
    }
  }

  /** Call j of the run presents a token of the family. */
  ghost predicate RefreshesFamily(cfg: Settings, s: State, calls: seq<Call>, j: nat, family: string) {
    && j < |calls| && calls[j].RefreshCall? && IsRun(cfg, s, calls[..j])
    && FamilyOf(After(cfg, s, calls[..j]).db.tokens, cfg.env.hashToken(calls[j].raw)) == Some(family)
  }

  /** From call n on, no refresh with a token of the family is made before the given time. */
  ghost predicate NoRefreshBefore(cfg: Settings, s: State, calls: seq<Call>, n: nat, family: string, limit: Time) {
    forall j: nat :: n <= j && RefreshesFamily(cfg, s, calls, j, family) ==> calls[j].now >= limit
  }

  lemma {:induction false} IdleIssuesNothing(cfg: Settings, s: State, calls: seq<Call>, n: nat, family: string,
                                             at: Time)
    requires Initial(s) && IsRun(cfg, s, calls) && n <= |calls| && IsRun(cfg, s, calls[..n])
    requires LastRefreshed(After(cfg, s, calls[..n]), family, at)
    requires NoRefreshBefore(cfg, s, calls, n, family, at + cfg.refreshTTL)
    ensures IssuedFor(After(cfg, s, calls).issued, family) == IssuedFor(After(cfg, s, calls[..n]).issued, family)
  {
    hide Step;
    hide Inv;
    hide IssuedFor;
    hide NoRefreshBefore;
    if n < |calls| {
      var front, last := calls[..|calls| - 1], |calls| - 1;
      assert front[..n] == calls[..n] && calls[..last] == front;
      StillIdle(cfg, s, calls, n, family, at + cfg.refreshTTL);
      IdleIssuesNothing(cfg, s, front, n, family, at);
      Reachable(cfg, s, front);
      LastCallIdle(cfg, s, calls, n, family, at + cfg.refreshTTL);
      IdleStep(cfg, After(cfg, s, front), calls[last], family, at);
    } else {
      assert calls[..n] == calls;
    }
  }

  lemma {:induction false} LastCallIdle(cfg: Settings, s: State, calls: seq<Call>, n: nat, family: string, limit: Time)
    requires IsRun(cfg, s, calls) && n < |calls| && NoRefreshBefore(cfg, s, calls, n, family, limit)
    ensures var c := calls[|calls| - 1];
            var before := After(cfg, s, calls[..|calls| - 1]).db.tokens;
            c.RefreshCall? && FamilyOf(before, cfg.env.hashToken(c.raw)) == Some(family) ==> c.now >= limit
  {
    assert RefreshesFamily(cfg, s, calls, |calls| - 1, family) ==> calls[|calls| - 1].now >= limit;
  }

  /** A family that has been idle for a refresh lifetime can never be refreshed again: its rows never grow and no access
      token is issued for it, whatever else happens. */
  lemma {:induction false} IdleFamilyDead(cfg: Settings, s: State, calls: seq<Call>, n: nat, family: string, at: Time)
    requires Initial(s) && IsRun(cfg, s, calls) && n <= |calls| && IsRun(cfg, s, calls[..n])
    requires LastRefreshed(After(cfg, s, calls[..n]), family, at)
    requires NoRefreshBefore(cfg, s, calls, n, family, at + cfg.refreshTTL)
    ensures IssuedFor(After(cfg, s, calls).issued, family) == IssuedFor(After(cfg, s, calls[..n]).issued, family)
    ensures |FamilyRows(After(cfg, s, calls).db.tokens, family)| ==
            |FamilyRows(After(cfg, s, calls[..n]).db.tokens, family)|
  {
    IdleIssuesNothing(cfg, s, calls, n, family, at);
    Reachable(cfg, s, calls);
    Reachable(cfg, s, calls[..n]);
    assert FamilyInStep(cfg, After(cfg, s, calls), family);
    assert FamilyInStep(cfg, After(cfg, s, calls[..n]), family);
  }

  lemma {:induction false} StillIdle(cfg: Settings, s: State, calls: seq<Call>, n: nat, family: string, limit: Time)
    requires calls != [] && NoRefreshBefore(cfg, s, calls, n, family, limit)
    ensures NoRefreshBefore(cfg, s, calls[..|calls| - 1], n, family, limit)
  {
    var front := calls[..|calls| - 1];
    forall j: nat | n <= j && RefreshesFamily(cfg, s, front, j, family) ensures front[j].now >= limit {
      assert front[..j] == calls[..j];
      assert RefreshesFamily(cfg, s, calls, j, family);
    }
  }

  lemma {:induction false} IdleStep(cfg: Settings, s: State, c: Call, family: string, at: Time)
    requires Inv(cfg, s) && Legal(s, c) && LastRefreshed(s, family, at)
    requires c.RefreshCall? && FamilyOf(s.db.tokens, cfg.env.hashToken(c.raw)) == Some(family) ==>
               c.now >= at + cfg.refreshTTL
    ensures IssuedFor(Step(cfg, s, c).issued, family) == IssuedFor(s.issued, family)
  {
    var s' := Step(cfg, s, c);
    assert FamilyInStep(cfg, s, family);
    if c.RefreshCall? && |s'.issued| > |s.issued| {
      var k, row, i := RefreshSucceeds(cfg, s, c);
      IssuedForAppended(s.issued, i, family);
      if i.family == family {
        assert UnusedIn(s.db.tokens, family, k);
        RefreshExactly(cfg, s, c, at);
      }
    } else if c.LoginStart? && |s'.issued| > |s.issued| {
      IssuedForAppended(s.issued, s'.issued[|s.issued|], family);
      if s'.issued[|s.issued|].family == family {
        UnknownFamilyEmpty(s.db.tokens, family);
      }
    }
  }
}

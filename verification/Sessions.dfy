/** Whole runs of the service: any interleaving of credential checks, session starts, refreshes, logouts and changes of
    the directory by operators, one repository transaction at a time. */
module Sessions {
  import opened Common
  import opened Directory
  import opened RefreshTokens
  import opened RefreshHistory
  import opened Protocol
  import AccessTokens
  import Database

  /** An access token that was handed out, and the family its session belongs to. */
  datatype Issuance = Issuance(family: string, user: User, at: Time, token: string, byRefresh: bool)

  /** A login whose credentials were accepted and whose session has not started yet. */
  datatype Accepted = Accepted(user: User, at: Time)

  datatype State = State(db: Database.Database, accepted: seq<Accepted>, issued: seq<Issuance>)

  datatype Call =
    | LoginCheck(email: string, password: string, remoteAddr: string, now: Time)
    | LoginStart(index: nat, draw: Draw)
    | RefreshCall(raw: string, now: Time, newRaw: string, tokenID: Bytes)
    | LogoutCall(raw: string, now: Time)
    | DirectoryChange(tables: Tables)

  /** What is assumed of a call: a login draws a family that no token has; no user with a token disappears. */
  ghost predicate Legal(s: State, c: Call) {
    match c
    case LoginStart(index, draw) => index < |s.accepted| && FamilyUnknown(s.db.tokens, draw.family)
    case DirectoryChange(tables) => UsersKept(s.db.tokens, tables.users)
    case _ => true
  }

  ghost predicate UsersKept(rows: seq<TokenRow>, users: seq<UserRow>) {
    forall i :: 0 <= i < |rows| ==> ActiveOf(users, rows[i].userId).Some?
  }

  function CheckStep(cfg: Settings, s: State, email: string, password: string, remoteAddr: string, now: Time): State {
    var (db, checked) := CheckCredentials(cfg, s.db, email, password, remoteAddr, now);
    State(db, if checked.Success? then s.accepted + [Accepted(checked.value, now)] else s.accepted, s.issued)
  }

  function StartStep(cfg: Settings, s: State, index: nat, draw: Draw): State
    requires index < |s.accepted|
  {
    var Accepted(user, at) := s.accepted[index];
    var (db, started) := StartSession(cfg, s.db, user, at, draw);
    State(db, s.accepted[..index] + s.accepted[index + 1..],
          if started.Failure? then s.issued
          else s.issued + [Issuance(draw.family, user, at, started.value.accessToken, false)])
  }

  /** The family of a token that is in the table. */
  function FamilyOf(rows: seq<TokenRow>, hash: Bytes): Option<string> {
    var k := IndexOf(rows, hash);
    if k == |rows| then None else Some(rows[k].family)
  }

  function RefreshStep(cfg: Settings, s: State, raw: string, now: Time, newRaw: string, tokenID: Bytes): State {
    var (db, refreshed) := Refresh(cfg, s.db, raw, now, newRaw, tokenID);
    var family := FamilyOf(s.db.tokens, cfg.env.hashToken(raw));
    State(db, s.accepted,
          if refreshed.Success? && family.Some?
          then s.issued + [Issuance(family.value, refreshed.value.user, now, refreshed.value.accessToken, true)]
          else s.issued)
  }

  function Step(cfg: Settings, s: State, c: Call): State
    requires c.LoginStart? ==> c.index < |s.accepted|
  {
    match c
    case LoginCheck(email, password, remoteAddr, now) => CheckStep(cfg, s, email, password, remoteAddr, now)
    case LoginStart(index, draw) => StartStep(cfg, s, index, draw)
    case RefreshCall(raw, now, newRaw, tokenID) => RefreshStep(cfg, s, raw, now, newRaw, tokenID)
    case LogoutCall(raw, now) => s.(db := Logout(cfg, s.db, raw, now))
    case DirectoryChange(tables) => s.(db := s.db.(tables := tables))
  }

  /** A run that every call of which is legal where it is made. */
  ghost predicate IsRun(cfg: Settings, s: State, calls: seq<Call>)
    decreases |calls|, 0
  {
    calls == [] ||
    (IsRun(cfg, s, calls[..|calls| - 1]) && Legal(After(cfg, s, calls[..|calls| - 1]), calls[|calls| - 1]))
  }

  ghost function After(cfg: Settings, s: State, calls: seq<Call>): State
    requires IsRun(cfg, s, calls)
    decreases |calls|, 1
  {
    if calls == [] then s else Step(cfg, After(cfg, s, calls[..|calls| - 1]), calls[|calls| - 1])
  }

  ghost predicate Initial(s: State) {
    s.db.tokens == [] && s.accepted == [] && s.issued == []
  }

  // ---------------------------------------------------------------- the effect of each call on the token table

  /** The operation that a call performs on the token table; None when it performs none. */
  function TokenOp(cfg: Settings, s: State, c: Call): Option<Op>
    requires c.LoginStart? ==> c.index < |s.accepted|
  {
    match c
    case LoginStart(index, draw) =>
      Some(CreateOp(NewRow(s.db.nextToken, s.accepted[index].user.id, cfg.env.hashToken(draw.rawToken), draw.family,
                           s.accepted[index].at + cfg.refreshTTL, draw.createdAt)))
    case RefreshCall(raw, now, newRaw, _) =>
      if raw == "" then None
      else Some(RotateOp(cfg.env.hashToken(raw), cfg.env.hashToken(newRaw), now + cfg.refreshTTL, s.db.nextToken, now))
    case LogoutCall(raw, now) => if raw == "" then None else Some(RevokeOp(cfg.env.hashToken(raw), now))
    case _ => None
  }

  ghost predicate IDsBelow(rows: seq<TokenRow>, nextId: int) {
    forall i :: 0 <= i < |rows| ==> rows[i].id < nextId
  }

  /** A refresh succeeds exactly when its atomic rotation does, and then its rows are those of the rotation. */
  lemma {:induction false} RefreshIsRotation(cfg: Settings, s: State, c: Call)
    requires c.RefreshCall? && c.raw != ""
    ensures var op := TokenOp(cfg, s, c).value;
            var (rows, verdict) :=
              Rotate(s.db.tokens, s.db.tables.users, op.hash, op.newHash, op.newExpiry, op.newId, op.now);
            var (db, refreshed) := Refresh(cfg, s.db, c.raw, c.now, c.newRaw, c.tokenID);
            && db.tokens == rows && (refreshed.Success? <==> verdict.Rotated?)
            && db.nextToken >= s.db.nextToken && (verdict.Rotated? ==> db.nextToken == s.db.nextToken + 1)
  {
    hide FindUserByID;
    hide AccessTokens.Issue;
    hide IndexOf;
    hide MarkUsed;
    hide RevokeFamily;
    var op := TokenOp(cfg, s, c).value;
    var (rows, verdict) := Rotate(s.db.tokens, s.db.tables.users, op.hash, op.newHash, op.newExpiry, op.newId, op.now);
    if verdict.Rotated? {
      Database.ActiveUserIsFound(s.db.tables, verdict.userId);
    }
  }

  /** The token table after a call is the table after its operation. */
  lemma {:induction false} StepTokens(cfg: Settings, s: State, c: Call)
    requires Legal(s, c)
    ensures var s' := Step(cfg, s, c);
            var op := TokenOp(cfg, s, c);
            s'.db.tokens == if op.None? then s.db.tokens else Apply(s.db.tokens, s.db.tables.users, op.value)
    ensures !c.DirectoryChange? ==> Step(cfg, s, c).db.tables == s.db.tables
    ensures Step(cfg, s, c).db.nextToken >= s.db.nextToken
  {
    if c.RefreshCall? && c.raw != "" {
      RefreshIsRotation(cfg, s, c);
    }
  }

  // ---------------------------------------------------------------- the invariant of every run

  function IssuedFor(issued: seq<Issuance>, family: string): seq<Issuance> {
    if issued == [] then [] else
      IssuedFor(issued[..|issued| - 1], family)
      + (if issued[|issued| - 1].family == family then [issued[|issued| - 1]] else [])
  }

  lemma {:induction false} IssuedForAppended(issued: seq<Issuance>, i: Issuance, family: string)
    ensures IssuedFor(issued + [i], family) == IssuedFor(issued, family) + if i.family == family then [i] else []
  {
    assert (issued + [i])[..|issued|] == issued;
  }

  lemma {:induction false} FamilyRowsAppended(rows: seq<TokenRow>, row: TokenRow, family: string)
    ensures FamilyRows(rows + [row], family) == FamilyRows(rows, family) + if row.family == family then [row] else []
  {
    assert (rows + [row])[..|rows|] == rows;
  }

  /** The tokens that a family's issuances make: the first by a login, every other by a rotation. */
  ghost predicate OneLogin(tokens: seq<Issuance>) {
    forall i :: 0 <= i < |tokens| ==> (tokens[i].byRefresh <==> i > 0)
  }

  /** A family's table rows are in step with its issuances: as many of them, the unused one expiring a refresh
      lifetime after the last of them. */
  ghost predicate FamilyInStep(cfg: Settings, s: State, family: string) {
    var tokens := IssuedFor(s.issued, family);
    && |FamilyRows(s.db.tokens, family)| == |tokens|
    && OneLogin(tokens)
    && forall i :: UnusedIn(s.db.tokens, family, i) ==>
         tokens != [] && s.db.tokens[i].expiresAt == tokens[|tokens| - 1].at + cfg.refreshTTL
  }

  ghost predicate Inv(cfg: Settings, s: State) {
    && Sound(s.db.tokens) && IDsBelow(s.db.tokens, s.db.nextToken) && UsersKept(s.db.tokens, s.db.tables.users)
    && forall family :: FamilyInStep(cfg, s, family)
  }

  lemma {:induction false} SameRowsInStep(cfg: Settings, s: State, s': State, family: string)
    requires FamilyInStep(cfg, s, family) && s'.issued == s.issued && OnlyRevokes(s.db.tokens, s'.db.tokens)
    ensures FamilyInStep(cfg, s', family)
  {
    SameFamilySize(s.db.tokens, s'.db.tokens, family);
    assert forall i :: UnusedIn(s'.db.tokens, family, i) ==> UnusedIn(s.db.tokens, family, i);
  }

  /** A session start opens its family with one row and one issuance, and leaves every other family alone. */
  lemma {:induction false} StartInStep(cfg: Settings, s: State, s': State, row: TokenRow, i: Issuance, family: string)
    requires FamilyInStep(cfg, s, family) && FamilyUnknown(s.db.tokens, row.family)
    requires s'.db.tokens == s.db.tokens + [row] && s'.issued == s.issued + [i]
    requires i.family == row.family && !i.byRefresh && row.expiresAt == i.at + cfg.refreshTTL
    ensures FamilyInStep(cfg, s', family)
  {
    FamilyRowsAppended(s.db.tokens, row, family);
    IssuedForAppended(s.issued, i, family);
    if family == row.family {
      UnknownFamilyEmpty(s.db.tokens, family);
    }
    forall n | UnusedIn(s'.db.tokens, family, n) && n < |s.db.tokens|
      ensures UnusedIn(s.db.tokens, family, n) && family != row.family
    {
      assert s.db.tokens[n].family == family;
    }
  }

  /** A rotation adds one row and one issuance to its family, and the new row is the unused one. */
  lemma {:induction false} RotationInStep(cfg: Settings, s: State, s': State, k: nat, row: TokenRow, i: Issuance,
                                          family: string)
    requires FamilyInStep(cfg, s, family) && Succeeds(s.db.tokens, k, row, s'.db.tokens)
    requires UnusedOnlyAt(s.db.tokens, row.family, k)
    requires s'.issued == s.issued + [i] && i.family == row.family && i.byRefresh
    requires row.expiresAt == i.at + cfg.refreshTTL
    ensures FamilyInStep(cfg, s', family)
  {
    var rows := s.db.tokens;
    var rows' := s'.db.tokens;
    assert rows' == rows'[..|rows|] + [row];
    FamilyRowsAppended(rows'[..|rows|], row, family);
    SameFamilySize(rows, rows'[..|rows|], family);
    IssuedForAppended(s.issued, i, family);
    forall n | UnusedIn(rows', family, n) && n < |rows| ensures UnusedIn(rows, family, n) && family != row.family {
      assert n != k;
      assert UnusedIn(rows, family, n);
    }
  }

  lemma {:induction false} UnchangedInv(cfg: Settings, s: State, s': State)
    requires Inv(cfg, s) && s'.issued == s.issued && OnlyRevokes(s.db.tokens, s'.db.tokens)
    requires s'.db.nextToken >= s.db.nextToken && UsersKept(s.db.tokens, s'.db.tables.users)
    ensures Inv(cfg, s')
  {
    RevokingSound(s.db.tokens, s'.db.tokens);
    forall family ensures FamilyInStep(cfg, s', family) {
      assert FamilyInStep(cfg, s, family);
      SameRowsInStep(cfg, s, s', family);
    }
  }

  lemma {:induction false} StartInv(cfg: Settings, s: State, c: Call)
    requires Inv(cfg, s) && c.LoginStart? && Legal(s, c)
    ensures Inv(cfg, Step(cfg, s, c))
  {
    hide AccessTokens.Issue;
    hide IndexOf;
    var s' := Step(cfg, s, c);
    var op := TokenOp(cfg, s, c).value;
    if Insert(s.db.tokens, s.db.tables.users, op.row).Success? {
      StepSound(s.db.tokens, s.db.tables.users, op);
      var i := s'.issued[|s.issued|];
      forall family ensures FamilyInStep(cfg, s', family) {
        assert FamilyInStep(cfg, s, family);
        StartInStep(cfg, s, s', op.row, i, family);
      }
    } else {
      UnchangedInv(cfg, s, s');
    }
  }

  /** What a successful refresh does to the state. */
  lemma {:induction false} RefreshSucceeds(cfg: Settings, s: State, c: Call)
    returns (k: nat, row: TokenRow, i: Issuance)
    requires c.RefreshCall? && UniqueKeys(s.db.tokens)
    requires Refresh(cfg, s.db, c.raw, c.now, c.newRaw, c.tokenID).1.Success?
    ensures var s' := Step(cfg, s, c);
            && k == IndexOf(s.db.tokens, cfg.env.hashToken(c.raw)) && Succeeds(s.db.tokens, k, row, s'.db.tokens)
            && row.expiresAt == c.now + cfg.refreshTTL && row.id == s.db.nextToken
            && IndexOf(s.db.tokens, row.hash) == |s.db.tokens|
            && s'.issued == s.issued + [i] && s'.accepted == s.accepted && s'.db.tables == s.db.tables
            && s'.db.nextToken == s.db.nextToken + 1
            && i == Issuance(row.family, i.user, c.now, i.token, true)
            && i.token == AccessTokens.Issue(cfg.manager, i.user, c.now, cfg.accessTTL, c.tokenID)
            && FindUserByID(s.db.tables, row.userId).Some? && FindUserByID(s.db.tables, row.userId).value.user == i.user
  {
    RefreshIsRotation(cfg, s, c);
    var op := TokenOp(cfg, s, c).value;
    RotateSucceeds(s.db.tokens, s.db.tables.users, op);
    k := IndexOf(s.db.tokens, op.hash);
    row := NewRow(op.newId, s.db.tokens[k].userId, op.newHash, s.db.tokens[k].family, op.newExpiry, op.now);
    i := Step(cfg, s, c).issued[|s.issued|];
  }

  lemma {:induction false} RefreshInv(cfg: Settings, s: State, c: Call)
    requires Inv(cfg, s) && c.RefreshCall? && c.raw != ""
    ensures Inv(cfg, Step(cfg, s, c))
  {
    var s' := Step(cfg, s, c);
    var op := TokenOp(cfg, s, c).value;
    StepTokens(cfg, s, c);
    RefreshIsRotation(cfg, s, c);
    if Refresh(cfg, s.db, c.raw, c.now, c.newRaw, c.tokenID).1.Success? {
      RotatedInv(cfg, s, c);
    } else {
      OtherwiseOnlyRevokes(s.db.tokens, s.db.tables.users, op);
      UnchangedInv(cfg, s, s');
    }
  }

  lemma {:induction false} RotatedInv(cfg: Settings, s: State, c: Call)
    requires Inv(cfg, s) && c.RefreshCall? && Refresh(cfg, s.db, c.raw, c.now, c.newRaw, c.tokenID).1.Success?
    ensures Inv(cfg, Step(cfg, s, c))
  {
    var s' := Step(cfg, s, c);
    var k, row, i := RefreshSucceeds(cfg, s, c);
    RotatingSound(s.db.tokens, k, row, s'.db.tokens);
    assert HasOneUnused(s.db.tokens, s.db.tokens[k].family);
    assert UnusedOnlyAt(s.db.tokens, row.family, k);
    forall family ensures FamilyInStep(cfg, s', family) {
      assert FamilyInStep(cfg, s, family);
      RotationInStep(cfg, s, s', k, row, i, family);
    }
    RotatedRows(s.db.tokens, s'.db.tokens, k, row, s.db.nextToken, s.db.tables.users);
  }

  lemma {:induction false} RotatedRows(rows: seq<TokenRow>, rows': seq<TokenRow>, k: nat, row: TokenRow, nextId: int,
                                       users: seq<UserRow>)
    requires Succeeds(rows, k, row, rows') && IDsBelow(rows, nextId) && row.id == nextId && UsersKept(rows, users)
    ensures IDsBelow(rows', nextId + 1) && UsersKept(rows', users)
  {
    forall n | 0 <= n < |rows'| ensures rows'[n].id < nextId + 1 && ActiveOf(users, rows'[n].userId).Some? {
      if n < |rows| {
        assert rows'[n].id == rows[n].id && rows'[n].userId == rows[n].userId;
      }
    }
  }

  lemma {:induction false} StepInv(cfg: Settings, s: State, c: Call)
    requires Inv(cfg, s) && Legal(s, c)
    ensures Inv(cfg, Step(cfg, s, c))
  {
    if c.LoginStart? {
      StartInv(cfg, s, c);
    } else if c.RefreshCall? && c.raw != "" {
      RefreshInv(cfg, s, c);
    } else {
      StepTokens(cfg, s, c);
      UnchangedInv(cfg, s, Step(cfg, s, c));
    }
  }

  lemma {:induction false} RunInv(cfg: Settings, s: State, calls: seq<Call>)
    requires Inv(cfg, s) && IsRun(cfg, s, calls)
    ensures Inv(cfg, After(cfg, s, calls))
  {
    if calls != [] {
      RunInv(cfg, s, calls[..|calls| - 1]);
      StepInv(cfg, After(cfg, s, calls[..|calls| - 1]), calls[|calls| - 1]);
    }
  }
}

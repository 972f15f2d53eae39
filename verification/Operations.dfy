/** What each operation of the service answers and does, told by the rows of the tables before and after it. */
module Operations {
  import opened Common
  import opened Directory
  import opened RefreshTokens
  import opened Protocol
  import AccessTokens
  import Base64
  import Database
  import LoginLimiter
  import PasswordHash
  import Provisioning
  import Sessions
  import Text

  // ---------------------------------------------------------------- the words of the statements

  ghost predicate HashUnknown(rows: seq<TokenRow>, hash: Bytes) {
    forall i :: 0 <= i < |rows| ==> rows[i].hash != hash
  }

  ghost predicate ActiveUser(t: Tables, id: int) {
    exists u :: u in t.users && u.id == id && u.active
  }

  /** Some active user has this e-mail and this password. */
  ghost predicate Known(cfg: Settings, t: Tables, email: string, password: string) {
    exists u :: GoodUser(cfg, t, email, password, u)
  }

  /** Five failures of the key are less than 15 minutes old. */
  ghost predicate Limited(attempts: seq<LoginLimiter.Attempt>, key: string, now: Time) {
    |LoginLimiter.Counted(attempts, key, now)| >= 5
  }

  /** The access token is this user's from now on until less than a second before its lifetime is over, and no more. */
  ghost predicate GivesAccess(cfg: Settings, token: string, user: User, now: Time, tokenID: Bytes) {
    forall t: Time :: AccessAt(cfg, token, user, now, tokenID, t)
  }

  ghost predicate AccessAt(cfg: Settings, token: string, user: User, now: Time, tokenID: Bytes, t: Time) {
    var parsed := AccessTokens.Parse(cfg.manager, token, t);
    && (now <= t <= now + cfg.accessTTL - 1_000_000_000 ==>
          parsed == Success(AccessTokens.Principal(user, Base64.Encode(Base64.URL, tokenID))))
    && (t <= now - 1_000_000_000 || now + cfg.accessTTL <= t ==> parsed == Failure(Unauthenticated))
  }

  lemma {:induction false} IssuedGivesAccess(cfg: Settings, user: User, now: Time, tokenID: Bytes)
    requires AccessTokens.Correct(cfg.manager) && Identified(user)
    ensures GivesAccess(cfg, AccessTokens.Issue(cfg.manager, user, now, cfg.accessTTL, tokenID), user, now, tokenID)
  {
    hide AccessTokens.Parse;
    hide AccessTokens.Usable;
    var token := AccessTokens.Issue(cfg.manager, user, now, cfg.accessTTL, tokenID);
    forall t: Time ensures AccessAt(cfg, token, user, now, tokenID, t) {
      AccessTokens.ParseIssued(cfg.manager, user, now, cfg.accessTTL, tokenID, t);
      AccessTokens.UsableLifetime(now, cfg.accessTTL, t);
    }
  }

  /** The user has what an identity column and a provisioning give: a positive 64-bit id and an email. */
  predicate Identified(user: User) { 0 < user.id < 0x8000_0000_0000_0000 && user.email != "" }

  // ---------------------------------------------------------------- logging in

  /** The name under which a login looks a user up, and the key under which its failures count. */
  function Name(cfg: Settings, email: string): string { cfg.env.normalizeEmail(email) }

  function Key(cfg: Settings, email: string, remoteAddr: string): string {
    cfg.env.rateKey(remoteAddr, Name(cfg, email))
  }

  /** What a login answers: a limited key comes before the password, and a session needs credentials that are good and
      a token that is new. */
  lemma {:induction false} LoginAnswer(cfg: Settings, db: Database.Database, email: string, password: string,
                                       remoteAddr: string, now: Time, draw: Draw)
    requires Provisioning.KeysUnique(db.tables)
    ensures var result := Login(cfg, db, email, password, remoteAddr, now, draw).1;
            var limited := Limited(db.attempts, Key(cfg, email, remoteAddr), now);
            var known := Known(cfg, db.tables, email, password);
            var unknown := HashUnknown(db.tokens, cfg.env.hashToken(draw.rawToken));
            && (result == Failure(RateLimited) <==> Name(cfg, email) != "" && limited)
            && (result == Failure(InvalidCredentials) <==> Name(cfg, email) == "" || (!limited && !known))
            && (result.Success? <==> Name(cfg, email) != "" && !limited && known && unknown)
            && (result == Failure(Unavailable) <==> Name(cfg, email) != "" && !limited && known && !unknown)
  {
    hide FindUser;
    hide AccessTokens.Issue;
    hide PasswordHash.Verify;
    hide Provisioning.KeysUnique;
    hide LoginLimiter.IsLimited;
    hide LoginLimiter.Counted;
    hide LoginLimiter.RecordFailure;
    var key := Key(cfg, email, remoteAddr);
    GoodUserIsFound(cfg, db.tables, email, password);
    LoginLimiter.LimitedExactly(db.attempts, key, now);
    LoginLimiter.RecordExactly(db.attempts, key, now);
    if Known(cfg, db.tables, email, password) {
      FoundIsJoined(cfg, db.tables, email);
    }
  }

  /** The user whom the lookup finds is one that a token row can refer to. */
  lemma {:induction false} FoundIsJoined(cfg: Settings, t: Tables, email: string)
    requires FindUser(t, Name(cfg, email)).Some?
    ensures ActiveOf(t.users, FindUser(t, Name(cfg, email)).value.user.id).Some?
  {
    var u := FoundRow(t, Name(cfg, email));
    RowIsJoined(t.users, u);
  }

  lemma {:induction false} RowIsJoined(users: seq<UserRow>, u: UserRow)
    requires u in users
    ensures ActiveOf(users, u.id).Some?
  {
    if users[0].id != u.id {
      RowIsJoined(users[1..], u);
    }
  }

  /** What a login does to the rows. Refused for its name or for the limit, it changes nothing. With bad credentials it
      adds one failure of the key, and only expired failures of the key go. With good ones every row of the key goes,
      and no other; a row is added to the tokens if the login succeeds, and otherwise none. */
  lemma {:induction false} LoginRows(cfg: Settings, db: Database.Database, email: string, password: string,
                                     remoteAddr: string, now: Time, draw: Draw)
    requires Provisioning.KeysUnique(db.tables)
    ensures var (db', result) := Login(cfg, db, email, password, remoteAddr, now, draw);
            var key := Key(cfg, email, remoteAddr);
            && db'.tables == db.tables && db'.sequences == db.sequences
            && (Name(cfg, email) == "" || Limited(db.attempts, key, now) ==> db' == db)
            && (Name(cfg, email) != "" && !Limited(db.attempts, key, now) ==>
                if Known(cfg, db.tables, email, password) then
                  LoginLimiter.Cleared(db.attempts, db'.attempts, key) && db'.nextToken == db.nextToken + 1
                else
                  && LoginLimiter.Recorded(db.attempts, db'.attempts, key, now)
                  && |LoginLimiter.Counted(db'.attempts, key, now)| == |LoginLimiter.Counted(db.attempts, key, now)| + 1
                  && db' == db.(attempts := db'.attempts))
            && (result.Failure? ==> db'.tokens == db.tokens)
  {
    hide FindUser;
    hide AccessTokens.Issue;
    hide PasswordHash.Verify;
    hide Provisioning.KeysUnique;
    hide LoginLimiter.IsLimited;
    hide LoginLimiter.Counted;
    hide LoginLimiter.Recorded;
    hide LoginLimiter.Cleared;
    hide LoginLimiter.RecordFailure;
    hide LoginLimiter.Clear;
    hide IndexOf;
    var key := Key(cfg, email, remoteAddr);
    GoodUserIsFound(cfg, db.tables, email, password);
    LoginLimiter.LimitedExactly(db.attempts, key, now);
    LoginLimiter.RecordExactly(db.attempts, key, now);
    LoginLimiter.RecordMeans(db.attempts, key, now, key);
    LoginLimiter.LimitedExactly(LoginLimiter.RecordFailure(db.attempts, key, now).0, key, now);
    LoginLimiter.ClearExactly(db.attempts, key);
  }

  /** What a successful login leaves and hands out: one more token row, for the hash of the very refresh token that is
      handed out; the user whose e-mail and password they were, with the roles and permissions of the directory; and an
      access token of that user. */
  lemma {:induction false} LoginSession(cfg: Settings, db: Database.Database, email: string, password: string,
                                        remoteAddr: string, now: Time, draw: Draw)
    returns (u: UserRow)
    requires Provisioning.KeysUnique(db.tables) && AccessTokens.Correct(cfg.manager)
    requires Login(cfg, db, email, password, remoteAddr, now, draw).1.Success?
    ensures var (db', result) := Login(cfg, db, email, password, remoteAddr, now, draw);
            && GoodUser(cfg, db.tables, email, password, u)
            && Describes(db.tables, u, StoredUser(result.value.user, u.passwordHash, true))
            && result.value.refreshToken == draw.rawToken
            && db'.tokens == db.tokens + [TokenRow(db.nextToken, u.id, cfg.env.hashToken(result.value.refreshToken),
                                                   draw.family, now + cfg.refreshTTL, draw.createdAt, None, None)]
            && (Identified(result.value.user) ==>
                GivesAccess(cfg, result.value.accessToken, result.value.user, now, draw.tokenID))
  {
    hide GivesAccess;
    hide Describes;
    hide AccessTokens.Correct;
    hide AccessTokens.Issue;
    hide Database.CreateRefreshToken;
    u := LoggedIn(cfg, db, email, password, remoteAddr, now);
    var (checkedDb, checked) := CheckCredentials(cfg, db, email, password, remoteAddr, now);
    SessionStarted(cfg, checkedDb, checked.value, now, draw);
    if Identified(checked.value) {
      IssuedGivesAccess(cfg, checked.value, now, draw.tokenID);
    }
  }

  lemma {:induction false} SessionStarted(cfg: Settings, db: Database.Database, user: User, now: Time, draw: Draw)
    requires StartSession(cfg, db, user, now, draw).1.Success?
    ensures var (db', result) := StartSession(cfg, db, user, now, draw);
            && result.value.user == user && result.value.refreshToken == draw.rawToken
            && result.value.accessToken == AccessTokens.Issue(cfg.manager, user, now, cfg.accessTTL, draw.tokenID)
            && db'.tokens == db.tokens + [TokenRow(db.nextToken, user.id, cfg.env.hashToken(draw.rawToken),
                                                   draw.family, now + cfg.refreshTTL, draw.createdAt, None, None)]
  {
    hide AccessTokens.Issue;
    hide IndexOf;
  }

  lemma {:induction false} LoggedIn(cfg: Settings, db: Database.Database, email: string, password: string,
                                    remoteAddr: string, now: Time)
    returns (u: UserRow)
    requires Provisioning.KeysUnique(db.tables)
    requires CheckCredentials(cfg, db, email, password, remoteAddr, now).1.Success?
    ensures var (db', checked) := CheckCredentials(cfg, db, email, password, remoteAddr, now);
            && GoodUser(cfg, db.tables, email, password, u)
            && Describes(db.tables, u, StoredUser(checked.value, u.passwordHash, true))
            && checked.value.id == u.id && db'.tokens == db.tokens && db'.nextToken == db.nextToken
  {
    CheckExactly(cfg, db, email, password, remoteAddr, now);
    var checked := CheckCredentials(cfg, db, email, password, remoteAddr, now).1;
    u :| GoodUser(cfg, db.tables, email, password, u) &&
         Describes(db.tables, u, StoredUser(checked.value, u.passwordHash, true));
  }

  /** A login is a run of the service: the check, and when it accepts, the session start of what it accepted. */
  lemma {:induction false} LoginIsRun(cfg: Settings, s: Sessions.State, email: string, password: string,
                                      remoteAddr: string, now: Time, draw: Draw)
    requires FamilyUnknown(s.db.tokens, draw.family)
    ensures var (db', result) := Login(cfg, s.db, email, password, remoteAddr, now, draw);
            var check := Sessions.LoginCheck(email, password, remoteAddr, now);
            var start := Sessions.LoginStart(|s.accepted|, draw);
            && Sessions.IsRun(cfg, s, [check])
            && (result.Failure? && result.error != Unavailable ==>
                Sessions.After(cfg, s, [check]) == Sessions.State(db', s.accepted, s.issued))
            && (result == Failure(Unavailable) ==>
                && Sessions.IsRun(cfg, s, [check, start])
                && Sessions.After(cfg, s, [check, start]) == Sessions.State(db', s.accepted, s.issued))
            && (result.Success? ==>
                && Sessions.IsRun(cfg, s, [check, start])
                && Sessions.After(cfg, s, [check, start]) ==
                   Sessions.State(db', s.accepted, s.issued + [Sessions.Issuance(
                     draw.family, result.value.user, now, result.value.accessToken, false)]))
  {
    hide CheckCredentials;
    hide AccessTokens.Issue;
    hide Database.CreateRefreshToken;
    var check := Sessions.LoginCheck(email, password, remoteAddr, now);
    var start := Sessions.LoginStart(|s.accepted|, draw);
    RunOfOne(cfg, s, check);
    CheckExactlyRefusals(cfg, s.db, email, password, remoteAddr, now);
    var checked := CheckCredentials(cfg, s.db, email, password, remoteAddr, now).1;
    if checked.Success? {
      var s1 := Sessions.CheckStep(cfg, s, email, password, remoteAddr, now);
      assert [check, start][..1] == [check];
      assert s1.accepted[..|s.accepted|] + s1.accepted[|s.accepted| + 1..] == s.accepted;
      assert Sessions.IsRun(cfg, s, [check, start]);
    }
  }

  lemma {:induction false} RunOfOne(cfg: Settings, s: Sessions.State, c: Sessions.Call)
    requires Sessions.Legal(s, c)
    ensures Sessions.IsRun(cfg, s, [c]) && Sessions.After(cfg, s, [c]) == Sessions.Step(cfg, s, c)
  {
    assert [c][..0] == [];
    assert Sessions.IsRun(cfg, s, []);
  }

  /** A check leaves the tokens alone, and never says unavailable. */
  lemma {:induction false} CheckExactlyRefusals(cfg: Settings, db: Database.Database, email: string, password: string,
                                                remoteAddr: string, now: Time)
    ensures var (db', checked) := CheckCredentials(cfg, db, email, password, remoteAddr, now);
            && db'.tokens == db.tokens
            && (checked.Failure? ==> checked.error == RateLimited || checked.error == InvalidCredentials)
  {
  }

  // ---------------------------------------------------------------- refreshing

  /** The k-th row is the presented token's, and u its user. */
  ghost predicate Presented(cfg: Settings, db: Database.Database, raw: string, k: int, u: UserRow) {
    && 0 <= k < |db.tokens| && db.tokens[k].hash == cfg.env.hashToken(raw)
    && u in db.tables.users && u.id == db.tokens[k].userId
  }

  /** Neither used nor revoked nor expired. */
  predicate Live(row: TokenRow, now: Time) { row.usedAt.None? && row.revokedAt.None? && now < row.expiresAt }

  /** The rows that are the family's and not revoked get this revocation time; nothing else changes. */
  ghost predicate FamilyRevoked(rows: seq<TokenRow>, rows': seq<TokenRow>, family: string, now: Time) {
    && |rows'| == |rows|
    && forall i :: 0 <= i < |rows| ==>
         rows'[i] == if rows[i].family == family && rows[i].revokedAt.None?
                     then rows[i].(revokedAt := Some(now)) else rows[i]
  }

  ghost predicate KeysHold(db: Database.Database) {
    UniqueKeys(db.tokens) && Provisioning.KeysUnique(db.tables)
  }

  lemma {:induction false} JoinedUser(users: seq<UserRow>, u: UserRow)
    requires u in users && forall i, j :: 0 <= i < j < |users| ==> users[i].id != users[j].id
    ensures ActiveOf(users, u.id) == Some(u.active)
  {
    if users[0] != u {
      assert u in users[1..];
      JoinedUser(users[1..], u);
    }
  }

  lemma {:induction false} NobodyJoined(users: seq<UserRow>, id: int)
    requires forall u :: u in users ==> u.id != id
    ensures ActiveOf(users, id).None?
  {
    if users != [] {
      assert users[0] in users;
      NobodyJoined(users[1..], id);
    }
  }

  /** A presented token's row is the one that the lookup by hash finds, and its user the one that is joined. */
  lemma {:induction false} PresentedIsFound(cfg: Settings, db: Database.Database, raw: string, k: int, u: UserRow)
    requires KeysHold(db) && Presented(cfg, db, raw, k, u)
    ensures IndexOf(db.tokens, cfg.env.hashToken(raw)) == k
    ensures ActiveOf(db.tables.users, db.tokens[k].userId) == Some(u.active)
  {
    JoinedUser(db.tables.users, u);
    var i := IndexOf(db.tokens, cfg.env.hashToken(raw));
    assert !(i < k) && !(k < i);
  }

  /** Without one, the lookup finds no row with a user. */
  lemma {:induction false} NothingPresented(cfg: Settings, db: Database.Database, raw: string)
    requires forall k, u :: !Presented(cfg, db, raw, k, u)
    ensures var k := IndexOf(db.tokens, cfg.env.hashToken(raw));
            k == |db.tokens| || ActiveOf(db.tables.users, db.tokens[k].userId).None?
  {
    var k := IndexOf(db.tokens, cfg.env.hashToken(raw));
    if k < |db.tokens| {
      forall u | u in db.tables.users ensures u.id != db.tokens[k].userId {
        assert !Presented(cfg, db, raw, k, u);
      }
      NobodyJoined(db.tables.users, db.tokens[k].userId);
    }
  }

  /** A refresh without a token, or with one that is not stored, is refused and changes nothing. */
  lemma {:induction false} RefreshUnknown(cfg: Settings, db: Database.Database, raw: string, now: Time, newRaw: string,
                                          tokenID: Bytes)
    requires raw == "" || forall k, u :: !Presented(cfg, db, raw, k, u)
    ensures Refresh(cfg, db, raw, now, newRaw, tokenID) == (db, Failure(InvalidRefreshToken))
  {
    hide Database.RotateRefreshToken;
    if raw != "" {
      NothingPresented(cfg, db, raw);
      Database.RotationBranches(
        db, cfg.env.hashToken(raw), cfg.env.hashToken(newRaw), now + cfg.refreshTTL, now);
    }
  }

  /** What a refresh with a stored token answers: reuse exactly for a used one, whatever else is true of it; an invalid
      token exactly for a revoked or expired one, or an inactive user; and success exactly for a live token of an active
      user and a new token that is not stored. */
  lemma {:induction false} RefreshAnswer(cfg: Settings, db: Database.Database, raw: string, now: Time, newRaw: string,
                                         tokenID: Bytes, k: int, u: UserRow)
    requires KeysHold(db) && raw != "" && Presented(cfg, db, raw, k, u)
    ensures var result := Refresh(cfg, db, raw, now, newRaw, tokenID).1;
            var row := db.tokens[k];
            var unknown := HashUnknown(db.tokens, cfg.env.hashToken(newRaw));
            && (result == Failure(RefreshReuse) <==> row.usedAt.Some?)
            && (result == Failure(InvalidRefreshToken) <==> row.usedAt.None? && !(Live(row, now) && u.active))
            && (result.Success? <==> Live(row, now) && u.active && unknown)
            && (result == Failure(Unavailable) <==> Live(row, now) && u.active && !unknown)
  {
    hide Database.RotateRefreshToken;
    hide FindUserByID;
    hide AccessTokens.Issue;
    hide MarkUsed;
    hide RevokeFamily;
    PresentedIsFound(cfg, db, raw, k, u);
    Database.RotationBranches(db, cfg.env.hashToken(raw), cfg.env.hashToken(newRaw), now + cfg.refreshTTL, now);
    Database.ActiveUserIsFound(db.tables, db.tokens[k].userId);
    MarkedHashes(db.tokens, db.tokens[k].id, now, cfg.env.hashToken(newRaw));
  }

  lemma {:induction false} MarkedHashes(rows: seq<TokenRow>, id: int, now: Time, hash: Bytes)
    ensures IndexOf(MarkUsed(rows, id, now), hash) == IndexOf(rows, hash) && |MarkUsed(rows, id, now)| == |rows|
  {
    SameHashes(rows, MarkUsed(rows, id, now), hash);
  }

  /** What a refresh with a stored token does to the rows when it does not succeed: a used token revokes its family at
      the time of the refresh, and nothing else changes any row. */
  lemma {:induction false} RefreshRefusedRows(cfg: Settings, db: Database.Database, raw: string, now: Time,
                                              newRaw: string, tokenID: Bytes, k: int, u: UserRow)
    requires KeysHold(db) && raw != "" && Presented(cfg, db, raw, k, u)
    ensures var (db', result) := Refresh(cfg, db, raw, now, newRaw, tokenID);
            && (result == Failure(RefreshReuse) ==>
                FamilyRevoked(db.tokens, db'.tokens, db.tokens[k].family, now) && db' == db.(tokens := db'.tokens))
            && (result == Failure(InvalidRefreshToken) ==> db' == db)
            && (result == Failure(Unavailable) ==> db' == db.(nextToken := db.nextToken + 1))
  {
    hide Database.RotateRefreshToken;
    hide FindUserByID;
    hide AccessTokens.Issue;
    hide MarkUsed;
    PresentedIsFound(cfg, db, raw, k, u);
    Database.RotationBranches(db, cfg.env.hashToken(raw), cfg.env.hashToken(newRaw), now + cfg.refreshTTL, now);
    Database.ActiveUserIsFound(db.tables, db.tokens[k].userId);
  }

  /** What a successful refresh leaves and hands out: the presented row is used and revoked at this time, one row is
      added for the hash of the very refresh token that is handed out, and nothing else changes; the user is the
      token's, with the roles and permissions of the directory now; and the access token is that user's. */
  lemma {:induction false} RefreshSession(cfg: Settings, db: Database.Database, raw: string, now: Time, newRaw: string,
                                          tokenID: Bytes, k: int, u: UserRow)
    requires KeysHold(db) && raw != "" && Presented(cfg, db, raw, k, u) && AccessTokens.Correct(cfg.manager)
    requires Refresh(cfg, db, raw, now, newRaw, tokenID).1.Success?
    ensures var (db', result) := Refresh(cfg, db, raw, now, newRaw, tokenID);
            var row := db.tokens[k];
            && db' == db.(tokens := db'.tokens, nextToken := db.nextToken + 1)
            && db'.tokens == db.tokens[k := row.(usedAt := Some(now), revokedAt := Some(now))] +
                             [TokenRow(db.nextToken, row.userId, cfg.env.hashToken(result.value.refreshToken),
                                       row.family, now + cfg.refreshTTL, now, None, None)]
            && result.value.refreshToken == newRaw
            && Describes(db.tables, u, StoredUser(result.value.user, u.passwordHash, true))
            && (Identified(result.value.user) ==>
                GivesAccess(cfg, result.value.accessToken, result.value.user, now, tokenID))
  {
    hide GivesAccess;
    hide AccessTokens.Correct;
    hide AccessTokens.Issue;
    RefreshedRows(cfg, db, raw, now, newRaw, tokenID, k, u);
    var user := Refresh(cfg, db, raw, now, newRaw, tokenID).1.value.user;
    if Identified(user) {
      IssuedGivesAccess(cfg, user, now, tokenID);
    }
  }

  lemma {:induction false} RefreshedRows(cfg: Settings, db: Database.Database, raw: string, now: Time, newRaw: string,
                                         tokenID: Bytes, k: int, u: UserRow)
    requires KeysHold(db) && raw != "" && Presented(cfg, db, raw, k, u)
    requires Refresh(cfg, db, raw, now, newRaw, tokenID).1.Success?
    ensures var (db', result) := Refresh(cfg, db, raw, now, newRaw, tokenID);
            var row := db.tokens[k];
            && db' == db.(tokens := db'.tokens, nextToken := db.nextToken + 1)
            && db'.tokens == db.tokens[k := row.(usedAt := Some(now), revokedAt := Some(now))] +
                             [TokenRow(db.nextToken, row.userId, cfg.env.hashToken(newRaw), row.family,
                                       now + cfg.refreshTTL, now, None, None)]
            && result.value.refreshToken == newRaw
            && result.value.accessToken ==
                 AccessTokens.Issue(cfg.manager, result.value.user, now, cfg.accessTTL, tokenID)
            && Describes(db.tables, u, StoredUser(result.value.user, u.passwordHash, true))
  {
    hide Database.RotateRefreshToken;
    hide FindUserByID;
    hide AccessTokens.Issue;
    hide MarkUsed;
    hide RevokeFamily;
    hide Describes;
    PresentedIsFound(cfg, db, raw, k, u);
    Database.RotationBranches(db, cfg.env.hashToken(raw), cfg.env.hashToken(newRaw), now + cfg.refreshTTL, now);
    MarkedRow(db.tokens, k, now);
    var found := FindUserByID(db.tables, u.id).value;
    TheUser(db.tables, u);
    assert found == StoredUser(found.user, u.passwordHash, true);
  }

  lemma {:induction false} MarkedRow(rows: seq<TokenRow>, k: nat, now: Time)
    requires k < |rows| && UniqueKeys(rows)
    ensures MarkUsed(rows, rows[k].id, now) == rows[k := rows[k].(usedAt := Some(now), revokedAt := Some(now))]
  {
  }

  lemma {:induction false} TheUser(t: Tables, u: UserRow)
    requires Provisioning.KeysUnique(t) && u in t.users
    ensures FindUserByID(t, u.id).Some? && Describes(t, u, FindUserByID(t, u.id).value)
    ensures FindUserByID(t, u.id).value.passwordHash == u.passwordHash
    ensures FindUserByID(t, u.id).value.active == u.active
  {
    hide FindUserByID;
    hide Provisioning.KeysUnique;
    hide HasRole;
    hide HasPermission;
    RowIsJoined(t.users, u);
    Database.ActiveUserIsFound(t, u.id);
    var v :| v in t.users && v.id == u.id && Describes(t, v, FindUserByID(t, u.id).value);
    OneRow(t, u, v);
  }

  lemma {:induction false} OneRow(t: Tables, u: UserRow, v: UserRow)
    requires Provisioning.KeysUnique(t) && u in t.users && v in t.users && u.id == v.id
    ensures u == v
  {
  }

  /** In a run of the service a refresh leaves these rows, and a success adds the access token that was handed out to
      the issuances of the token's family. */
  lemma {:induction false} RefreshIsRun(cfg: Settings, s: Sessions.State, raw: string, now: Time, newRaw: string,
                                        tokenID: Bytes, k: int, u: UserRow)
    requires KeysHold(s.db) && raw != "" && Presented(cfg, s.db, raw, k, u)
    ensures var (db', result) := Refresh(cfg, s.db, raw, now, newRaw, tokenID);
            var refresh := Sessions.RefreshCall(raw, now, newRaw, tokenID);
            && Sessions.IsRun(cfg, s, [refresh])
            && Sessions.After(cfg, s, [refresh]) == Sessions.State(
                 db', s.accepted,
                 if result.Failure? then s.issued
                 else s.issued + [Sessions.Issuance(
                   s.db.tokens[k].family, result.value.user, now, result.value.accessToken, true)])
  {
    hide Refresh;
    RunOfOne(cfg, s, Sessions.RefreshCall(raw, now, newRaw, tokenID));
    PresentedIsFound(cfg, s.db, raw, k, u);
    assert Sessions.FamilyOf(s.db.tokens, cfg.env.hashToken(raw)) == Some(s.db.tokens[k].family);
    var (db', result) := Refresh(cfg, s.db, raw, now, newRaw, tokenID);
    var next := Sessions.RefreshStep(cfg, s, raw, now, newRaw, tokenID);
    assert Sessions.After(cfg, s, [Sessions.RefreshCall(raw, now, newRaw, tokenID)]) == next;
    assert next.db == db' && next.accepted == s.accepted && (result.Failure? ==> next.issued == s.issued);
    assert result.Success? ==> next.issued == s.issued + [Sessions.Issuance(
      s.db.tokens[k].family, result.value.user, now, result.value.accessToken, true)];
  }

  // ---------------------------------------------------------------- the tokens that are handed out

  /** A database whose last token row is new, with other directory tables than when it was added. */
  lemma {:induction false} LastRowRefreshes(cfg: Settings, db: Database.Database, raw: string, now: Time,
                                            newRaw: string, tokenID: Bytes, u: UserRow)
    requires KeysHold(db) && db.tokens != [] && raw != ""
    requires var row := db.tokens[|db.tokens| - 1];
             && row.hash == cfg.env.hashToken(raw) && row.usedAt.None? && row.revokedAt.None?
             && u in db.tables.users && u.id == row.userId
    ensures Refresh(cfg, db, raw, now, newRaw, tokenID).1.Success? <==>
            && now < db.tokens[|db.tokens| - 1].expiresAt && u.active
            && HashUnknown(db.tokens, cfg.env.hashToken(newRaw))
  {
    assert Presented(cfg, db, raw, |db.tokens| - 1, u);
    RefreshAnswer(cfg, db, raw, now, newRaw, tokenID, |db.tokens| - 1, u);
  }

  lemma {:induction false} AppendedKeys(rows: seq<TokenRow>, row: TokenRow, next: int)
    requires UniqueKeys(rows) && Sessions.IDsBelow(rows, next) && row.id == next && HashUnknown(rows, row.hash)
    ensures UniqueKeys(rows + [row])
  {
  }

  /** The refresh token that a login hands out can be refreshed exactly while the refresh lifetime lasts and the user is
      active in the directory as it is by then, under a new token that is not stored. */
  lemma {:induction false} LoginTokenRefreshes(cfg: Settings, db: Database.Database, email: string, password: string,
                                               remoteAddr: string, now: Time, draw: Draw, tables: Tables, later: Time,
                                               newRaw: string, tokenID: Bytes, u: UserRow)
    requires KeysHold(db) && Sessions.IDsBelow(db.tokens, db.nextToken) && AccessTokens.Correct(cfg.manager)
    requires Login(cfg, db, email, password, remoteAddr, now, draw).1.Success?
    requires var (db', result) := Login(cfg, db, email, password, remoteAddr, now, draw);
             && result.value.refreshToken != "" && Provisioning.KeysUnique(tables)
             && u in tables.users && u.id == result.value.user.id
    ensures var (db', result) := Login(cfg, db, email, password, remoteAddr, now, draw);
            Refresh(cfg, db'.(tables := tables), result.value.refreshToken, later, newRaw, tokenID).1.Success? <==>
            later < now + cfg.refreshTTL && u.active && HashUnknown(db'.tokens, cfg.env.hashToken(newRaw))
  {
    hide Login;
    hide Refresh;
    hide GoodUser;
    hide GivesAccess;
    hide UniqueKeys;
    hide Provisioning.KeysUnique;
    var (db', result) := Login(cfg, db, email, password, remoteAddr, now, draw);
    LoginAnswer(cfg, db, email, password, remoteAddr, now, draw);
    var v := LoginSession(cfg, db, email, password, remoteAddr, now, draw);
    AppendedKeys(db.tokens, db'.tokens[|db.tokens|], db.nextToken);
    LastRowRefreshes(cfg, db'.(tables := tables), result.value.refreshToken, later, newRaw, tokenID, u);
  }

  /** So can the refresh token that a refresh hands out; the one it was given reports reuse from then on, whatever the
      directory has become, as long as its user is there. */
  lemma {:induction false} RefreshTokenRefreshes(cfg: Settings, db: Database.Database, raw: string, now: Time,
                                                 first: string, firstID: Bytes, k: int, u: UserRow, tables: Tables,
                                                 later: Time, newRaw: string, tokenID: Bytes, v: UserRow)
    requires KeysHold(db) && Sessions.IDsBelow(db.tokens, db.nextToken) && AccessTokens.Correct(cfg.manager)
    requires raw != "" && Presented(cfg, db, raw, k, u) && Refresh(cfg, db, raw, now, first, firstID).1.Success?
    requires Refresh(cfg, db, raw, now, first, firstID).1.value.refreshToken != ""
    requires Provisioning.KeysUnique(tables) && v in tables.users && v.id == u.id
    ensures var (db', result) := Refresh(cfg, db, raw, now, first, firstID);
            var db1 := db'.(tables := tables);
            && (Refresh(cfg, db1, result.value.refreshToken, later, newRaw, tokenID).1.Success? <==>
                later < now + cfg.refreshTTL && v.active && HashUnknown(db'.tokens, cfg.env.hashToken(newRaw)))
            && Refresh(cfg, db1, raw, later, newRaw, tokenID).1 == Failure(RefreshReuse)
  {
    hide Refresh;
    hide GivesAccess;
    hide Describes;
    hide Provisioning.KeysUnique;
    var (db', result) := Refresh(cfg, db, raw, now, first, firstID);
    RefreshAnswer(cfg, db, raw, now, first, firstID, k, u);
    RefreshSession(cfg, db, raw, now, first, firstID, k, u);
    var spent := db.tokens[k := db'.tokens[k]];
    AppendedKeys(spent, db'.tokens[|db.tokens|], db.nextToken);
    assert db'.tokens == spent + [db'.tokens[|db.tokens|]];
    var db1 := db'.(tables := tables);
    LastRowRefreshes(cfg, db1, result.value.refreshToken, later, newRaw, tokenID, v);
    assert Presented(cfg, db1, raw, k, v);
    RefreshAnswer(cfg, db1, raw, later, newRaw, tokenID, k, v);
  }

  // ---------------------------------------------------------------- logging out

  /** A logout with a stored token revokes what is left of its family, at that time, and changes nothing else; with any
      other token it changes nothing. */
  lemma {:induction false} LogoutExactly(cfg: Settings, db: Database.Database, raw: string, now: Time)
    requires UniqueKeys(db.tokens)
    ensures var db' := Logout(cfg, db, raw, now);
            && (raw == "" || HashUnknown(db.tokens, cfg.env.hashToken(raw)) ==> db' == db)
            && forall k :: raw != "" && 0 <= k < |db.tokens| && db.tokens[k].hash == cfg.env.hashToken(raw) ==>
                 FamilyRevoked(db.tokens, db'.tokens, db.tokens[k].family, now) && db' == db.(tokens := db'.tokens)
  {
    var i := IndexOf(db.tokens, cfg.env.hashToken(raw));
    forall k | 0 <= k < |db.tokens| && db.tokens[k].hash == cfg.env.hashToken(raw) ensures k == i {
      assert !(i < k) && !(k < i);
    }
  }

  // ---------------------------------------------------------------- provisioning

  /** One to 320 characters, no blanks, one "@" that is neither first nor last, and a dot behind it. */
  ghost predicate Acceptable(email: string) {
    && 1 <= |email| <= 320 && (forall i :: 0 <= i < |email| ==> email[i] !in {' ', '\t', '\r', '\n'})
    && exists at, dot :: 0 < at < dot < |email| && OnlyAt(email, at) && email[dot] == '.'
  }

  ghost predicate OnlyAt(email: string, at: int) {
    forall i :: 0 <= i < |email| ==> (email[i] == '@' <==> i == at)
  }

  lemma {:induction false} ValidEmailExactly(email: string)
    ensures ValidEmail(email) <==> Acceptable(email)
  {
    if exists at, dot :: 0 < at < dot < |email| && OnlyAt(email, at) && email[dot] == '.' {
      var at, dot :| 0 < at < dot < |email| && OnlyAt(email, at) && email[dot] == '.';
      TwoParts(email, at);
      assert email[at + 1..][dot - at - 1] == '.';
    }
    if ValidEmail(email) {
      ValidSplit(email);
    }
  }

  lemma {:induction false} TwoParts(email: string, at: int)
    requires 0 <= at < |email| && OnlyAt(email, at)
    ensures Text.Split(email, '@') == [email[..at], email[at + 1..]]
  {
    assert '@' !in email[..at] && '@' !in email[at + 1..];
    Text.SplitFirst(email[..at], '@', email[at + 1..]);
    Text.SplitFirst(email[at + 1..], '@', "");
    assert email == email[..at] + "@" + email[at + 1..];
  }

  lemma {:induction false} ValidSplit(email: string)
    requires ValidEmail(email)
    ensures exists at, dot :: 0 < at < dot < |email| && OnlyAt(email, at) && email[dot] == '.'
  {
    Text.JoinSplit(email, '@');
    var parts := Text.Split(email, '@');
    assert parts[1..] == [parts[1]];
    assert email == parts[0] + "@" + parts[1];
    var at := |parts[0]|;
    var d :| 0 <= d < |parts[1]| && parts[1][d] == '.';
    assert email[at + 1 + d] == '.';
    assert OnlyAt(email, at);
  }

  /** What provisioning an administrator answers: the e-mail is looked at first, then the length of the password, and
      only then whether a user has the e-mail. */
  lemma {:induction false} ProvisionAnswer(env: Environment, db: Database.Database, email: string, password: string,
                                           salt: Bytes)
    ensures var result := ProvisionAdmin(env, db, email, password, salt).1;
            var name := env.normalizeEmail(email);
            var taken := exists u :: u in db.tables.users && u.email == name;
            && (result == Failure(InvalidEmail) <==> !Acceptable(name))
            && (result == Failure(InvalidPassword) <==> Acceptable(name) && !(15 <= |password| <= 128))
            && (result == Failure(UserExists) <==> Acceptable(name) && 15 <= |password| <= 128 && taken)
            && (result.Success? <==> Acceptable(name) && 15 <= |password| <= 128 && !taken)
  {
    hide Acceptable;
    hide ValidEmail;
    var name := env.normalizeEmail(email);
    ValidEmailExactly(name);
    PasswordHash.HashedExactly(env.kdf, password, salt);
    var hash := PasswordHash.HashPassword(env.kdf, password, salt);
    if hash.Success? {
      Provisioning.UserExistsChangesNothing(db.tables, db.sequences, name, hash.value);
    }
  }

  /** The row is there afterwards, and is the only one that was not there before; the others are as they were. */
  ghost predicate Adds<T>(rows: seq<T>, rows': seq<T>, row: T) {
    row in rows' && (rows' == rows + [row] || (rows' == rows && row in rows))
  }

  /** What it does to the rows: a refusal changes none; a success adds one active user with that e-mail and a hash of
      that password, and, where they are missing, the role internal_admin, the permission errors:read and the two rows
      that give the one to the user and the other to the role. No other row is added, changed or taken away. */
  lemma {:induction false} ProvisionRows(env: Environment, db: Database.Database, email: string, password: string,
                                         salt: Bytes)
    returns (roleId: int, permissionId: int)
    ensures var (db', result) := ProvisionAdmin(env, db, email, password, salt);
            var id := db.sequences.nextUser;
            && db'.tokens == db.tokens && db'.nextToken == db.nextToken && db'.attempts == db.attempts
            && (result.Failure? ==> db'.tables == db.tables)
            && (result.Success? ==>
                && result.value == User(id, env.normalizeEmail(email), ["internal_admin"], ["errors:read"])
                && PasswordHash.HashPassword(env.kdf, password, salt).Success?
                && db'.tables.users == db.tables.users + [UserRow(
                     id, env.normalizeEmail(email), PasswordHash.HashPassword(env.kdf, password, salt).value, true)]
                && Adds(db.tables.roles, db'.tables.roles, RoleRow(roleId, "internal_admin"))
                && Adds(db.tables.permissions, db'.tables.permissions, PermissionRow(permissionId, "errors:read"))
                && Adds(db.tables.userRoles, db'.tables.userRoles, UserRole(id, roleId))
                && Adds(db.tables.rolePermissions, db'.tables.rolePermissions, RolePermission(roleId, permissionId)))
  {
    hide ValidEmail;
    hide PasswordHash.HashPassword;
    roleId := Provisioning.UpsertRole(db.tables.roles, db.sequences.nextRole, ADMIN_ROLE).1;
    permissionId :=
      Provisioning.UpsertPermission(db.tables.permissions, db.sequences.nextPermission, ERROR_READ_GRANT).1;
    var hash := PasswordHash.HashPassword(env.kdf, password, salt);
    if hash.Success? {
      CreatedRows(db.tables, db.sequences, env.normalizeEmail(email), hash.value);
    }
  }

  lemma {:induction false} CreatedRows(t: Tables, q: Sequences, email: string, hash: string)
    ensures var (t', _, result) := Provisioning.CreateAdmin(t, q, email, hash);
            var roleId := Provisioning.UpsertRole(t.roles, q.nextRole, ADMIN_ROLE).1;
            var permissionId := Provisioning.UpsertPermission(t.permissions, q.nextPermission, ERROR_READ_GRANT).1;
            result.Success? ==>
              && Adds(t.roles, t'.roles, RoleRow(roleId, "internal_admin"))
              && Adds(t.permissions, t'.permissions, PermissionRow(permissionId, "errors:read"))
              && Adds(t.userRoles, t'.userRoles, UserRole(q.nextUser, roleId))
              && Adds(t.rolePermissions, t'.rolePermissions, RolePermission(roleId, permissionId))
  {
    LastIsIn(t.roles, RoleRow(q.nextRole, "internal_admin"));
    LastIsIn(t.permissions, PermissionRow(q.nextPermission, "errors:read"));
    var roleId := Provisioning.UpsertRole(t.roles, q.nextRole, ADMIN_ROLE).1;
    var permissionId := Provisioning.UpsertPermission(t.permissions, q.nextPermission, ERROR_READ_GRANT).1;
    LastIsIn(t.userRoles, UserRole(q.nextUser, roleId));
    LastIsIn(t.rolePermissions, RolePermission(roleId, permissionId));
  }

  lemma {:induction false} LastIsIn<T>(rows: seq<T>, row: T)
    ensures row in rows + [row]
  {
    assert (rows + [row])[|rows|] == row;
  }
}

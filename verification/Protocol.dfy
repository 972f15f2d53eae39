/** The service's operations, each as one function on the database: what the sequence of repository calls comes to. */
module Protocol {
  import opened Common
  import opened Text
  import opened Directory
  import opened AccessTokens
  import PasswordHash
  import LoginLimiter
  import Provisioning
  import Database

  /** Code that the service calls and this model does not look into. */
  datatype Environment = Environment(
    hashToken: string -> Bytes,
    kdf: PasswordHash.KeyDerivation,
    normalizeEmail: string -> string,
    rateKey: (string, string) -> string)

  datatype Settings = Settings(env: Environment, manager: TokenManager, accessTTL: Time, refreshTTL: Time)

  datatype AuthResult = AuthResult(user: User, accessToken: string, refreshToken: string)

  /** What a login draws from the random source and the clock of the INSERT. */
  datatype Draw = Draw(rawToken: string, family: string, tokenID: Bytes, createdAt: Time)

  /** Check the limit, look the user up, verify the password, then record the failure or clear the key. */
  function CheckCredentials(cfg: Settings, db: Database.Database, email: string, password: string, remoteAddr: string,
                            now: Time)
    : (Database.Database, Result<User>)
  {
    var normalized := cfg.env.normalizeEmail(email);
    if normalized == "" then (db, Failure(InvalidCredentials)) else
      var key := cfg.env.rateKey(remoteAddr, normalized);
      if LoginLimiter.IsLimited(db.attempts, key, now) then (db, Failure(RateLimited)) else
        var found := FindUser(db.tables, normalized);
        if found.None? || !found.value.active
           || !PasswordHash.Verify(cfg.env.kdf, found.value.passwordHash, password) then
          var (db', limited) := Database.RecordLoginFailure(db, key, now);
          (db', Failure(if limited then RateLimited else InvalidCredentials))
        else
          (Database.ClearLoginAttempts(db, key), Success(found.value.user))
  }

  /** Start a new family for the user, and issue the access token. */
  function StartSession(cfg: Settings, db: Database.Database, user: User, now: Time, draw: Draw)
    : (Database.Database, Result<AuthResult>)
  {
    var (db', created) := Database.CreateRefreshToken(
      db, user.id, cfg.env.hashToken(draw.rawToken), draw.family, now + cfg.refreshTTL, draw.createdAt);
    if created.Failure? then (db', Failure(Unavailable))
    else (db', Success(AuthResult(user, Issue(cfg.manager, user, now, cfg.accessTTL, draw.tokenID), draw.rawToken)))
  }

  function Login(cfg: Settings, db: Database.Database, email: string, password: string, remoteAddr: string, now: Time,
                 draw: Draw)
    : (Database.Database, Result<AuthResult>)
  {
    var (db', checked) := CheckCredentials(cfg, db, email, password, remoteAddr, now);
    match checked
    case Failure(error) => (db', Failure(error))
    case Success(user) => StartSession(cfg, db', user, now, draw)
  }

  /** Only the two refusals of a rotation are passed on; any other error reads as unavailable. */
  function AfterRotation(cfg: Settings, rotated: Result<StoredUser>, now: Time, newRaw: string, tokenID: Bytes)
    : Result<AuthResult> {
    match rotated
    case Failure(error) => Failure(if error == InvalidRefreshToken || error == RefreshReuse then error else Unavailable)
    case Success(user) =>
      Success(AuthResult(user.user, Issue(cfg.manager, user.user, now, cfg.accessTTL, tokenID), newRaw))
  }

  function Refresh(cfg: Settings, db: Database.Database, raw: string, now: Time, newRaw: string, tokenID: Bytes)
    : (Database.Database, Result<AuthResult>)
  {
    if raw == "" then (db, Failure(InvalidRefreshToken)) else
      var (db', rotated) := Database.RotateRefreshToken(
        db, cfg.env.hashToken(raw), cfg.env.hashToken(newRaw), now + cfg.refreshTTL, now);
      (db', AfterRotation(cfg, rotated, now, newRaw, tokenID))
  }

  function Logout(cfg: Settings, db: Database.Database, raw: string, now: Time): Database.Database {
    if raw == "" then db else Database.RevokeRefreshFamilyByToken(db, cfg.env.hashToken(raw), now)
  }

  /** Non-empty, at most 320 long, without blanks, one "@" with text on both sides, and a dot after it. */
  predicate ValidEmail(email: string) {
    && 0 < |email| <= 320 && ' ' !in email && '\t' !in email && '\r' !in email && '\n' !in email
    && var parts := Split(email, '@');
       |parts| == 2 && parts[0] != "" && parts[1] != "" && '.' in parts[1]
  }

  function ProvisionAdmin(env: Environment, db: Database.Database, email: string, password: string, salt: Bytes)
    : (Database.Database, Result<User>)
  {
    var normalized := env.normalizeEmail(email);
    if !ValidEmail(normalized) then (db, Failure(InvalidEmail)) else
      match PasswordHash.HashPassword(env.kdf, password, salt)
      case Failure(error) => (db, Failure(error))
      case Success(hash) => Database.CreateAdmin(db, normalized, hash)
  }

  /** An active user with this e-mail and password. */
  ghost predicate GoodUser(cfg: Settings, t: Tables, email: string, password: string, u: UserRow) {
    && u in t.users && u.email == cfg.env.normalizeEmail(email) && u.active
    && PasswordHash.Verify(cfg.env.kdf, u.passwordHash, password)
  }

  /** What the lookup and the password say about the credentials. */
  function CredentialsGood(cfg: Settings, t: Tables, email: string, password: string): bool {
    var found := FindUser(t, cfg.env.normalizeEmail(email));
    found.Some? && found.value.active && PasswordHash.Verify(cfg.env.kdf, found.value.passwordHash, password)
  }

  /** The row that the lookup by e-mail describes. */
  lemma {:induction false} FoundRow(t: Tables, email: string) returns (u: UserRow)
    requires FindUser(t, email).Some?
    ensures u in t.users && u.email == email && Describes(t, u, FindUser(t, email).value)
    ensures FindUser(t, email).value.passwordHash == u.passwordHash && FindUser(t, email).value.active == u.active
  {
    QueryExact(t, ByEmail(email));
    u :| u in t.users && ByEmail(email)(u) && Describes(t, u, Query(t, ByEmail(email)).value);
  }

  lemma {:induction false} SomeoneIsFound(t: Tables, email: string, u: UserRow)
    requires u in t.users && u.email == email
    ensures FindUser(t, email).Some?
  {
    QueryExact(t, ByEmail(email));
    assert ByEmail(email)(u);
  }

  /** The lookup by e-mail decides about the one user who has it. */
  lemma {:induction false} GoodUserIsFound(cfg: Settings, t: Tables, email: string, password: string)
    requires Provisioning.KeysUnique(t)
    ensures CredentialsGood(cfg, t, email, password) <==> exists u :: GoodUser(cfg, t, email, password, u)
    ensures CredentialsGood(cfg, t, email, password) ==>
              exists u :: GoodUser(cfg, t, email, password, u) &&
                          Describes(t, u, FindUser(t, cfg.env.normalizeEmail(email)).value)
  {
    hide FindUser;
    hide Describes;
    hide PasswordHash.Verify;
    var normalized := cfg.env.normalizeEmail(email);
    if CredentialsGood(cfg, t, email, password) {
      var u := FoundRow(t, normalized);
      assert GoodUser(cfg, t, email, password, u);
    }
    if u :| GoodUser(cfg, t, email, password, u) {
      SomeoneIsFound(t, normalized, u);
      var v := FoundRow(t, normalized);
      assert u == v;
    }
  }

  /** Credentials are accepted exactly when the users table has an active user with that e-mail and password and fewer
      than five failures of the key count; the login is then that user's, with exactly the roles and permissions that
      the directory gives, and the key's attempts are gone. Otherwise nothing but the key's attempts can change. */
  lemma {:induction false} CheckExactly(cfg: Settings, db: Database.Database, email: string, password: string,
                                        remoteAddr: string, now: Time)
    requires Provisioning.KeysUnique(db.tables)
    ensures var (db', checked) := CheckCredentials(cfg, db, email, password, remoteAddr, now);
            var key := cfg.env.rateKey(remoteAddr, cfg.env.normalizeEmail(email));
            && (checked.Success? <==>
                && cfg.env.normalizeEmail(email) != ""
                && LoginLimiter.Recent(db.attempts, key, now) < LoginLimiter.LOGIN_LIMIT
                && exists u :: GoodUser(cfg, db.tables, email, password, u))
            && (checked.Success? ==>
                && (exists u :: GoodUser(cfg, db.tables, email, password, u) &&
                                Describes(db.tables, u, StoredUser(checked.value, u.passwordHash, true)))
                && LoginLimiter.KeyRows(db'.attempts, key) == [])
            && db' == db.(attempts := db'.attempts)
            && forall other :: OthersKept(cfg, db, email, password, remoteAddr, now, other)
  {
    hide CheckCredentials;
    hide GoodUser;
    hide Describes;
    hide LoginLimiter.KeyRows;
    GoodUserIsFound(cfg, db.tables, email, password);
    CheckAccepts(cfg, db, email, password, remoteAddr, now);
    if CheckCredentials(cfg, db, email, password, remoteAddr, now).1.Success? {
      CheckedUser(cfg, db, email, password, remoteAddr, now);
    }
    forall other ensures OthersKept(cfg, db, email, password, remoteAddr, now, other) {
      CheckFrame(cfg, db, email, password, remoteAddr, now, other);
    }
  }

  /** When a check accepts, told by the lookup. */
  lemma {:induction false} CheckAccepts(cfg: Settings, db: Database.Database, email: string, password: string,
                                        remoteAddr: string, now: Time)
    ensures var (db', checked) := CheckCredentials(cfg, db, email, password, remoteAddr, now);
            var key := cfg.env.rateKey(remoteAddr, cfg.env.normalizeEmail(email));
            && (checked.Success? <==>
                && cfg.env.normalizeEmail(email) != ""
                && LoginLimiter.Recent(db.attempts, key, now) < LoginLimiter.LOGIN_LIMIT
                && CredentialsGood(cfg, db.tables, email, password))
            && (checked.Success? ==> LoginLimiter.KeyRows(db'.attempts, key) == [])
            && db' == db.(attempts := db'.attempts)
  {
    hide FindUser;
    hide LoginLimiter.KeyRows;
    hide LoginLimiter.Recent;
    hide LoginLimiter.RecordFailure;
    var key := cfg.env.rateKey(remoteAddr, cfg.env.normalizeEmail(email));
    LoginLimiter.ClearKeyRows(db.attempts, key, key);
  }

  ghost predicate OthersKept(cfg: Settings, db: Database.Database, email: string, password: string, remoteAddr: string,
                             now: Time, other: string) {
    other != cfg.env.rateKey(remoteAddr, cfg.env.normalizeEmail(email)) ==>
      LoginLimiter.KeyRows(CheckCredentials(cfg, db, email, password, remoteAddr, now).0.attempts, other) ==
      LoginLimiter.KeyRows(db.attempts, other)
  }

  lemma {:induction false} CheckFrame(cfg: Settings, db: Database.Database, email: string, password: string,
                                      remoteAddr: string, now: Time, other: string)
    ensures OthersKept(cfg, db, email, password, remoteAddr, now, other)
  {
    hide FindUser;
    hide LoginLimiter.KeyRows;
    hide LoginLimiter.Recent;
    hide LoginLimiter.RecordFailure;
    var key := cfg.env.rateKey(remoteAddr, cfg.env.normalizeEmail(email));
    LoginLimiter.RecordMeans(db.attempts, key, now, other);
    LoginLimiter.ClearKeyRows(db.attempts, key, other);
  }

  lemma {:induction false} CheckedUser(cfg: Settings, db: Database.Database, email: string, password: string,
                                       remoteAddr: string, now: Time)
    requires Provisioning.KeysUnique(db.tables)
    requires CheckCredentials(cfg, db, email, password, remoteAddr, now).1.Success?
    ensures exists u :: GoodUser(cfg, db.tables, email, password, u) &&
                        Describes(db.tables, u,
                                  StoredUser(CheckCredentials(cfg, db, email, password, remoteAddr, now).1.value,
                                                           u.passwordHash, true))
  {
    GoodUserIsFound(cfg, db.tables, email, password);
    var s := FindUser(db.tables, cfg.env.normalizeEmail(email)).value;
    var u :| GoodUser(cfg, db.tables, email, password, u) && Describes(db.tables, u, s);
    assert s == StoredUser(s.user, u.passwordHash, true);
  }

  /** A check does to the attempts what a login with such credentials does, and answers accordingly. */
  lemma {:induction false} CheckIsAttempt(cfg: Settings, db: Database.Database, email: string, password: string,
                                          remoteAddr: string, now: Time)
    requires cfg.env.normalizeEmail(email) != ""
    ensures var (db', checked) := CheckCredentials(cfg, db, email, password, remoteAddr, now);
            var key := cfg.env.rateKey(remoteAddr, cfg.env.normalizeEmail(email));
            var (attempts, outcome) :=
              LoginLimiter.Attempted(db.attempts, key, now, CredentialsGood(cfg, db.tables, email, password));
            && db'.attempts == attempts
            && (outcome.TooMany? <==> checked == Failure(RateLimited))
            && (outcome.Rejected? <==> checked == Failure(InvalidCredentials))
            && (outcome.Accepted? <==> checked.Success?)
  {
  }

  lemma {:induction false} ProvisionedIsFound(env: Environment, db: Database.Database, email: string, password: string,
                                              salt: Bytes)
    returns (s: StoredUser)
    requires Provisioning.Valid(db.tables, db.sequences) && ProvisionAdmin(env, db, email, password, salt).1.Success?
    ensures env.normalizeEmail(email) != ""
    ensures FindUser(ProvisionAdmin(env, db, email, password, salt).0.tables, env.normalizeEmail(email)) == Some(s)
    ensures s.active && PasswordHash.HashPassword(env.kdf, password, salt) == Success(s.passwordHash)
    ensures s.user.roles == [ADMIN_ROLE] && ERROR_READ_GRANT in s.user.permissions
  {
    var normalized := env.normalizeEmail(email);
    var hash := PasswordHash.HashPassword(env.kdf, password, salt).value;
    Provisioning.UserExistsChangesNothing(db.tables, db.sequences, normalized, hash);
    s := Provisioning.CreatedAdminIsFound(db.tables, db.sequences, normalized, hash);
  }

  /** An administrator who was provisioned can log in: unless the key is limited, the check accepts exactly the
      passwords that derive the same key, and yields the role internal_admin with errors:read. */
  lemma {:induction false} ProvisionedAdminLogsIn(cfg: Settings, db: Database.Database, email: string, password: string,
                                                  salt: Bytes, candidate: string, remoteAddr: string, now: Time)
    requires Provisioning.Valid(db.tables, db.sequences) && |salt| == PasswordHash.ARGON_SALT_LENGTH
    requires |PasswordHash.Derived(cfg.env.kdf, password, salt)| == PasswordHash.ARGON_KEY_LENGTH
    requires ProvisionAdmin(cfg.env, db, email, password, salt).1.Success?
    ensures var db' := ProvisionAdmin(cfg.env, db, email, password, salt).0;
            var checked := CheckCredentials(cfg, db', email, candidate, remoteAddr, now).1;
            var limited :=
              LoginLimiter.IsLimited(db'.attempts, cfg.env.rateKey(remoteAddr, cfg.env.normalizeEmail(email)), now);
            && (checked.Success? <==> !limited && PasswordHash.Derived(cfg.env.kdf, candidate, salt) ==
                                                  PasswordHash.Derived(cfg.env.kdf, password, salt))
            && (checked.Success? ==>
                checked.value.roles == [ADMIN_ROLE] && ERROR_READ_GRANT in checked.value.permissions)
  {
    var s := ProvisionedIsFound(cfg.env, db, email, password, salt);
    PasswordHash.VerifiesHashed(cfg.env.kdf, password, salt, candidate);
  }
}

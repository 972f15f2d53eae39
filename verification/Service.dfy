/** The authentication service: sequences of repository calls with early exits. */
module Service {
  import opened Common
  import opened Directory
  import opened AccessTokens
  import opened Protocol
  import opened Repository
  import Base64
  import Csrf
  import PasswordHash

  class Service {
    const repository: PostgresRepository?
    const tokens: Option<TokenManager>
    const csrfSecret: Bytes
    const accessTokenTTL: Time
    const refreshTokenTTL: Time
    const env: Environment

    constructor (repository: PostgresRepository?, tokens: Option<TokenManager>, csrfSecret: Bytes, accessTokenTTL: Time,
                 refreshTokenTTL: Time, env: Environment)
      ensures this.repository == repository && this.tokens == tokens && this.csrfSecret == csrfSecret
      ensures this.accessTokenTTL == accessTokenTTL && this.refreshTokenTTL == refreshTokenTTL && this.env == env
    {
      this.repository, this.tokens, this.csrfSecret := repository, tokens, csrfSecret;
      this.accessTokenTTL, this.refreshTokenTTL, this.env := accessTokenTTL, refreshTokenTTL, env;
    }

    predicate Available() {
      repository != null && tokens.Some? && |csrfSecret| >= 32
    }

    function Config(): Settings
      requires Available()
    {
      Settings(env, tokens.value, accessTokenTTL, refreshTokenTTL)
    }

    method Login(email: string, password: string, remoteAddr: string, now: Time, draw: Draw)
      returns (result: Result<AuthResult>)
      modifies if repository == null then {} else {repository}
      ensures !Available() ==> result == Failure(Unavailable)
      ensures !Available() && repository != null ==> repository.Contents() == old(repository.Contents())
      ensures Available() ==>
                (repository.Contents(), result) ==
                Protocol.Login(Config(), old(repository.Contents()), email, password, remoteAddr, now, draw)
    {
      if !Available() {
        return Failure(Unavailable);
      }
      var normalized := env.normalizeEmail(email);
      if normalized == "" {
        return Failure(InvalidCredentials);
      }
      var rateKey := env.rateKey(remoteAddr, normalized);
      var rateLimited := repository.IsLoginRateLimited(rateKey, now);
      if rateLimited {
        return Failure(RateLimited);
      }
      var user := repository.FindUserByEmail(normalized);
      var verified := false;
      if user.Some? && user.value.active {
        verified := PasswordHash.VerifyPassword(env.kdf, user.value.passwordHash, password);
      }
      if user.None? || !user.value.active || !verified {
        var limited := repository.RecordLoginFailure(rateKey, now);
        if limited {
          return Failure(RateLimited);
        }
        return Failure(InvalidCredentials);
      }
      repository.ClearLoginAttempts(rateKey);
      result := IssueTokens(user.value.user, now, draw);
    }

    method IssueTokens(user: User, now: Time, draw: Draw) returns (result: Result<AuthResult>)
      requires Available()
      modifies repository
      ensures (repository.Contents(), result) == StartSession(Config(), old(repository.Contents()), user, now, draw)
    {
      var created := repository.CreateRefreshToken(
        user.id, env.hashToken(draw.rawToken), draw.family, now + refreshTokenTTL, draw.createdAt);
      if created.Failure? {
        return Failure(Unavailable);
      }
      return Success(AuthResult(user, Issue(tokens.value, user, now, accessTokenTTL, draw.tokenID), draw.rawToken));
    }

    method Refresh(rawToken: string, now: Time, newRawToken: string, tokenID: Bytes)
      returns (result: Result<AuthResult>)
      modifies if repository == null then {} else {repository}
      ensures !Available() ==> result == Failure(Unavailable)
      ensures !Available() && repository != null ==> repository.Contents() == old(repository.Contents())
      ensures Available() ==>
                (repository.Contents(), result) ==
                Protocol.Refresh(Config(), old(repository.Contents()), rawToken, now, newRawToken, tokenID)
    {
      if !Available() || rawToken == "" {
        if !Available() {
          return Failure(Unavailable);
        }
        return Failure(InvalidRefreshToken);
      }
      result := Rotate(rawToken, now, newRawToken, tokenID);
    }

    /** The part of Refresh behind its early exits. */
    method Rotate(rawToken: string, now: Time, newRawToken: string, tokenID: Bytes) returns (result: Result<AuthResult>)
      requires Available() && rawToken != ""
      modifies repository
      ensures (repository.Contents(), result) ==
              Protocol.Refresh(Config(), old(repository.Contents()), rawToken, now, newRawToken, tokenID)
    {
      hide Database.RotateRefreshToken;
      hide AfterRotation;
      var user :=
        repository.RotateRefreshToken(env.hashToken(rawToken), env.hashToken(newRawToken), now + refreshTokenTTL, now);
      result := Answer(user, now, newRawToken, tokenID);
    }

    method Answer(user: Result<StoredUser>, now: Time, newRawToken: string, tokenID: Bytes)
      returns (result: Result<AuthResult>)
      requires Available()
      ensures result == AfterRotation(Config(), user, now, newRawToken, tokenID)
    {
      if user.Failure? {
        if user.error == InvalidRefreshToken || user.error == RefreshReuse {
          return Failure(user.error);
        }
        return Failure(Unavailable);
      }
      var access := Issue(tokens.value, user.value.user, now, accessTokenTTL, tokenID);
      return Success(AuthResult(user.value.user, access, newRawToken));
    }

    method Logout(rawToken: string, now: Time) returns (result: Result<()>)
      modifies if repository == null then {} else {repository}
      ensures result == if Available() then Success(()) else Failure(Unavailable)
      ensures repository != null ==>
                repository.Contents() ==
                if Available() then Protocol.Logout(Config(), old(repository.Contents()), rawToken, now)
                else old(repository.Contents())
    {
      if !Available() {
        return Failure(Unavailable);
      }
      if rawToken == "" {
        return Success(());
      }
      repository.RevokeRefreshFamilyByToken(env.hashToken(rawToken), now);
      return Success(());
    }

    /** A token is accepted as the manager accepts it, once repository, manager and a secret of 32 bytes are there. */
    method Authenticate(rawToken: string, now: Time) returns (result: Result<Principal>)
      ensures repository == null || tokens.None? || |csrfSecret| < 32 ==> result == Failure(Unavailable)
      ensures repository != null && tokens.Some? && |csrfSecret| >= 32 ==>
                result == AccessTokens.Parse(tokens.value, rawToken, now)
    {
      if !Available() {
        return Failure(Unavailable);
      }
      return AccessTokens.Parse(tokens.value, rawToken, now);
    }

    /** A token is made exactly when repository, manager and a secret of 32 bytes are there, and it validates here. */
    method NewCSRFToken(mac: Csrf.Mac, random: Bytes) returns (result: Result<string>)
      requires |random| == 32 && forall s, v :: |mac(s, v)| == 32
      ensures result.Failure? <==> repository == null || tokens.None? || |csrfSecret| < 32
      ensures result.Failure? ==> result.error == Unavailable
      ensures result.Success? ==> Csrf.Validate(mac, csrfSecret, result.value)
    {
      if !Available() {
        return Failure(Unavailable);
      }
      Csrf.GeneratedValidates(mac, csrfSecret, random, csrfSecret);
      return Csrf.NewToken(mac, csrfSecret, random);
    }

    /** Validation asks for the secret alone. */
    method ValidateCSRFToken(mac: Csrf.Mac, token: string) returns (ok: bool)
      requires forall s, v :: |mac(s, v)| == 32
      ensures ok <==> |csrfSecret| >= 32 && exists value, signature ::
                        Csrf.IsValue(value) && token == value + "." + signature &&
                        signature == Base64.Encode(Base64.URL, mac(csrfSecret, value))
    {
      Csrf.AcceptedExactly(mac, csrfSecret, token);
      return Csrf.Validate(mac, csrfSecret, token);
    }

    method CreateAdmin(email: string, password: string, salt: Bytes) returns (result: Result<User>)
      modifies if repository == null then {} else {repository}
      ensures repository == null ==> result == Failure(Unavailable)
      ensures repository != null ==>
                (repository.Contents(), result) ==
                ProvisionAdmin(env, old(repository.Contents()), email, password, salt)
    {
      if repository == null {
        return Failure(Unavailable);
      }
      var normalized := env.normalizeEmail(email);
      if !ValidEmail(normalized) {
        return Failure(InvalidEmail);
      }
      var hash := PasswordHash.HashPassword(env.kdf, password, salt);
      if hash.Failure? {
        return Failure(hash.error);
      }
      result := repository.CreateAdmin(normalized, hash.value);
    }
  }
}

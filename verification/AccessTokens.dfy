/** Access tokens: the claims that are issued, and everything that is checked before a principal is accepted.
    The signature scheme and the compact serialisation of RFC 7519 are parameters. */
module AccessTokens {
  import opened Common
  import opened Text
  import opened Directory
  import Base64

  const ACCESS_TOKEN_TYPE := "access"
  const EDDSA := "EdDSA"

  /** Times are NumericDate values: whole seconds. */
  datatype Claims = Claims(
    tokenType: string,
    email: string,
    roles: seq<string>,
    permissions: seq<string>,
    issuer: string,
    subject: string,
    audience: seq<string>,
    expiresAt: Option<int>,
    notBefore: Option<int>,
    issuedAt: Option<int>,
    id: string)

  datatype Token = Token(alg: string, keyID: string, claims: Claims, signature: Bytes)

  datatype TokenManager = TokenManager(
    keyID: string,
    issuer: string,
    audience: string,
    sign: (string, string, Claims) -> Bytes,
    verify: (string, string, Claims, Bytes) -> bool,
    write: Token -> string,
    read: string -> Option<Token>)

  datatype Principal = Principal(user: User, tokenID: string)

  /** What is assumed of the parameters: a signature verifies, a written token reads back. */
  ghost predicate Correct(m: TokenManager) {
    && (forall alg, kid, claims :: m.verify(alg, kid, claims, m.sign(alg, kid, claims)))
    && (forall t :: m.read(m.write(t)) == Some(t))
  }

  /** jwt.NewNumericDate: the instant cut to whole seconds. */
  function NumericDate(t: Time): int { t / SECOND }

  function Instant(date: int): Time { date * SECOND }

  function IssuedClaims(m: TokenManager, user: User, now: Time, ttl: Time, tokenID: Bytes): Claims {
    Claims(ACCESS_TOKEN_TYPE, user.email, user.roles, user.permissions, m.issuer, FormatInt(user.id), [m.audience],
           Some(NumericDate(now + ttl)), Some(NumericDate(now)), Some(NumericDate(now)),
           Base64.Encode(Base64.URL, tokenID))
  }

  /** The token id is the random input. */
  function Issue(m: TokenManager, user: User, now: Time, ttl: Time, tokenID: Bytes): string {
    var claims := IssuedClaims(m, user, now, ttl, tokenID);
    m.write(Token(EDDSA, m.keyID, claims, m.sign(EDDSA, m.keyID, claims)))
  }

  /** The registered-claim checks that the parser options ask for: expiry required, issue time not in the future,
      issuer, audience (section 4.1 of RFC 7519). */
  predicate RegisteredClaimsHold(m: TokenManager, c: Claims, now: Time) {
    && c.expiresAt.Some? && now < Instant(c.expiresAt.value)
    && (c.notBefore.Some? ==> Instant(c.notBefore.value) <= now)
    && (c.issuedAt.Some? ==> Instant(c.issuedAt.value) <= now)
    && m.audience in c.audience
    && c.issuer == m.issuer
  }

  function Parse(m: TokenManager, raw: string, now: Time): Result<Principal> {
    match m.read(raw)
    case None => Failure(Unauthenticated)
    case Some(t) =>
      var c := t.claims;
      if t.alg != EDDSA || t.keyID != m.keyID || !m.verify(t.alg, t.keyID, c, t.signature) then Failure(Unauthenticated)
      else if !RegisteredClaimsHold(m, c, now) || c.tokenType != ACCESS_TOKEN_TYPE then Failure(Unauthenticated)
      else if c.notBefore.None? || Instant(c.notBefore.value) > now || c.subject == "" || c.email == "" then
        Failure(Unauthenticated)
      else
        match ParseInt64(c.subject)
        case None => Failure(Unauthenticated)
        case Some(id) =>
          if id <= 0 then Failure(Unauthenticated)
          else Success(Principal(User(id, c.email, c.roles, c.permissions), c.id))
  }

  /** The instants at which an issued token is usable: from its issue cut to a second, to its expiry cut to a second. */
  predicate Usable(issuedAt: Time, ttl: Time, now: Time) {
    Instant(NumericDate(issuedAt)) <= now < Instant(NumericDate(issuedAt + ttl))
  }

  /** Parsing an issued token returns the very user it was issued for exactly when the user has a positive signed 64-bit
      id and an email and the token is usable at that time; otherwise it is refused. */
  lemma {:induction false} ParseIssued(m: TokenManager, user: User, issuedAt: Time, ttl: Time, tokenID: Bytes,
                                       now: Time)
    requires Correct(m)
    ensures Parse(m, Issue(m, user, issuedAt, ttl, tokenID), now) ==
            if 0 < user.id < INT64_LIMIT && user.email != "" && Usable(issuedAt, ttl, now)
            then Success(Principal(user, Base64.Encode(Base64.URL, tokenID)))
            else Failure(Unauthenticated)
  {
    var claims := IssuedClaims(m, user, issuedAt, ttl, tokenID);
    var t := Token(EDDSA, m.keyID, claims, m.sign(EDDSA, m.keyID, claims));
    assert m.read(m.write(t)) == Some(t);
    assert m.verify(EDDSA, m.keyID, claims, t.signature);
    Int64RoundTrip(user.id);
    DigitsRoundTrip(if user.id < 0 then -user.id else user.id);
  }

  /** A token is never usable at or after its issue plus its lifetime, and loses less than one second of it. */
  lemma {:induction false} UsableLifetime(issuedAt: Time, ttl: Time, now: Time)
    ensures Usable(issuedAt, ttl, now) ==> issuedAt - SECOND < now < issuedAt + ttl
    ensures issuedAt <= now <= issuedAt + ttl - SECOND ==> Usable(issuedAt, ttl, now)
  {
  }

  /** What an issued token carries: the user, the manager's names, and the three times in whole seconds. */
  lemma {:induction false} IssuedExactly(m: TokenManager, user: User, issuedAt: Time, ttl: Time, tokenID: Bytes)
    requires Correct(m)
    ensures var t := m.read(Issue(m, user, issuedAt, ttl, tokenID));
            && t.Some? && t.value.alg == "EdDSA" && t.value.keyID == m.keyID
            && m.verify("EdDSA", m.keyID, t.value.claims, t.value.signature)
            && var c := t.value.claims;
               && c.tokenType == "access" && c.issuer == m.issuer && c.audience == [m.audience]
               && c.email == user.email && c.roles == user.roles && c.permissions == user.permissions
               && DecimalOf(c.subject, user.id)
               && c.issuedAt == c.notBefore == Some(issuedAt / 1_000_000_000)
               && c.expiresAt == Some((issuedAt + ttl) / 1_000_000_000)
               && Base64.Decode(Base64.URL, c.id) == Some(tokenID)
  {
    var claims := IssuedClaims(m, user, issuedAt, ttl, tokenID);
    var t := Token(EDDSA, m.keyID, claims, m.sign(EDDSA, m.keyID, claims));
    assert m.read(m.write(t)) == Some(t);
    assert m.verify(EDDSA, m.keyID, claims, t.signature);
    Base64.RoundTrip(Base64.URL, tokenID);
    DigitsRoundTrip(if user.id < 0 then -user.id else user.id);
  }

  /** The text is the number in decimal digits, behind a minus sign when it is negative. */
  predicate DecimalOf(s: string, n: int) {
    s != "" && if n < 0 then s[0] == '-' && DigitsValue(s[1..]) == Some(-n) else DigitsValue(s) == Some(n)
  }

  /** Whatever the text is, it is refused unless it reads as a token that is signed with the manager's key, names its
      issuer and audience, has a running lifetime, and says who the user is. */
  ghost predicate Refusable(m: TokenManager, t: Token, now: Time) {
    var c := t.claims;
    || t.alg != "EdDSA" || t.keyID != m.keyID || !m.verify(t.alg, t.keyID, c, t.signature)
    || c.tokenType != "access" || c.issuer != m.issuer || m.audience !in c.audience
    || c.expiresAt.None? || c.expiresAt.value * 1_000_000_000 <= now
    || c.notBefore.None? || now < c.notBefore.value * 1_000_000_000
    || (c.issuedAt.Some? && now < c.issuedAt.value * 1_000_000_000)
    || c.email == "" || forall id: int | 0 < id < 0x8000_0000_0000_0000 :: !ReadsAs(c.subject, id)
  }

  /** The subject is this positive number: digits, with leading zeros or a plus sign as they may be. */
  ghost predicate ReadsAs(subject: string, id: int) {
    subject != "" && DigitsValue(if subject[0] == '+' then subject[1..] else subject) == Some(id)
  }

  /** A text is refused exactly when it is no token or a refusable one; an accepted one gives the user whose positive
      64-bit id, email, roles and permissions it carries. */
  lemma {:induction false} ParseExactly(m: TokenManager, raw: string, now: Time)
    ensures var parsed := Parse(m, raw, now);
            && (parsed.Failure? ==> parsed.error == Unauthenticated)
            && (parsed.Failure? <==> m.read(raw).None? || Refusable(m, m.read(raw).value, now))
            && (parsed.Success? ==>
                var c := m.read(raw).value.claims;
                && 0 < parsed.value.user.id < 0x8000_0000_0000_0000 && ReadsAs(c.subject, parsed.value.user.id)
                && parsed.value == Principal(User(parsed.value.user.id, c.email, c.roles, c.permissions), c.id))
  {
    if m.read(raw).Some? {
      SubjectRead(m.read(raw).value.claims.subject);
    }
  }

  lemma {:induction false} SubjectRead(subject: string)
    ensures ParseInt64(subject).Some? && ParseInt64(subject).value > 0 ==> ReadsAs(subject, ParseInt64(subject).value)
    ensures forall id: int :: 0 < id < 0x8000_0000_0000_0000 && ReadsAs(subject, id) ==> ParseInt64(subject) == Some(id)
  {
    forall id: int | 0 < id < 0x8000_0000_0000_0000 && ReadsAs(subject, id) ensures ParseInt64(subject) == Some(id) {
      if subject[0] == '-' {
        DigitsByPlace(subject[..1], subject[1..]);
        assert subject == subject[..1] + subject[1..];
      } else if subject[0] == '+' {
        assert subject[1..] != "";
      }
    }
  }

  /** Two managers with the same keys: the second accepts a token of the first exactly when they agree on key id, issuer
      and audience, the user has a positive signed 64-bit id and an email, and the token is usable at that time. */
  lemma {:induction false} OtherManager(m: TokenManager, other: TokenManager, user: User, issuedAt: Time, ttl: Time,
                                        tokenID: Bytes, now: Time)
    requires Correct(m) && other.sign == m.sign && other.verify == m.verify
    requires other.write == m.write && other.read == m.read
    ensures Parse(other, Issue(m, user, issuedAt, ttl, tokenID), now) ==
            if && other.keyID == m.keyID && other.issuer == m.issuer && other.audience == m.audience
               && 0 < user.id < 0x8000_0000_0000_0000 && user.email != ""
               && issuedAt / 1_000_000_000 * 1_000_000_000 <= now
               && now < (issuedAt + ttl) / 1_000_000_000 * 1_000_000_000
            then Success(Principal(user, Base64.Encode(Base64.URL, tokenID)))
            else Failure(Unauthenticated)
  {
    if other.keyID == m.keyID && other.issuer == m.issuer && other.audience == m.audience {
      assert other == m;
      ParseIssued(m, user, issuedAt, ttl, tokenID, now);
    } else {
      IssuedExactly(m, user, issuedAt, ttl, tokenID);
      ParseExactly(other, Issue(m, user, issuedAt, ttl, tokenID), now);
    }
  }
}

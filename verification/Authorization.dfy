/** What a served request proves about the past: which call issued its token, and what the directory said then. */
module Authorization {
  import opened Common
  import opened Directory
  import opened RefreshTokens
  import opened RefreshHistory
  import opened Protocol
  import opened Sessions
  import opened SessionGuarantees
  import Database
  import opened AccessTokens
  import opened Middleware

  /** The directory holds an active user with this id, and the join of its tables describes the user so. */
  ghost predicate Reads(t: Tables, user: User) {
    && ActiveOf(t.users, user.id).Some?
    && (exists v :: v in t.users && v.id == user.id && v.active)
    && (exists u, hash, active :: u in t.users && Describes(t, u, StoredUser(user, hash, active)))
  }

  /** Call number m of the run, made at the given time, read this user from the directory. */
  ghost predicate ReadAt(cfg: Settings, s: State, calls: seq<Call>, m: nat, user: User, at: Time) {
    && m < |calls| && IsRun(cfg, s, calls[..m])
    && (calls[m].LoginCheck? || calls[m].RefreshCall?) && calls[m].now == at
    && Reads(After(cfg, s, calls[..m]).db.tables, user)
  }

  ghost predicate WasRead(cfg: Settings, s: State, calls: seq<Call>, user: User, at: Time) {
    exists m: nat :: ReadAt(cfg, s, calls, m, user, at)
  }

  ghost predicate IssuedBy(cfg: Settings, i: Issuance) {
    exists id :: i.token == Issue(cfg.manager, i.user, i.at, cfg.accessTTL, id)
  }

  /** Everyone who was accepted, and everyone for whom a token was issued, was read from the directory at that time. */
  ghost predicate Traced(cfg: Settings, s: State, calls: seq<Call>, st: State) {
    && (forall k :: 0 <= k < |st.accepted| ==> WasRead(cfg, s, calls, st.accepted[k].user, st.accepted[k].at))
    && (forall k :: 0 <= k < |st.issued| ==>
        WasRead(cfg, s, calls, st.issued[k].user, st.issued[k].at) && IssuedBy(cfg, st.issued[k]))
  }

  lemma {:induction false} ReadStays(cfg: Settings, s: State, calls: seq<Call>, c: Call, user: User, at: Time)
    requires WasRead(cfg, s, calls, user, at)
    ensures WasRead(cfg, s, calls + [c], user, at)
  {
    var m: nat :| ReadAt(cfg, s, calls, m, user, at);
    SamePrefix(calls, c, m);
    assert ReadAt(cfg, s, calls + [c], m, user, at);
  }

  lemma {:induction false} SamePrefix(calls: seq<Call>, c: Call, m: nat)
    requires m < |calls|
    ensures (calls + [c])[..m] == calls[..m] && (calls + [c])[m] == calls[m]
  {
  }

  lemma {:induction false} TracedStays(cfg: Settings, s: State, calls: seq<Call>, c: Call, st: State)
    requires Traced(cfg, s, calls, st)
    ensures Traced(cfg, s, calls + [c], st)
  {
    forall k | 0 <= k < |st.accepted| ensures WasRead(cfg, s, calls + [c], st.accepted[k].user, st.accepted[k].at) {
      ReadStays(cfg, s, calls, c, st.accepted[k].user, st.accepted[k].at);
    }
    forall k | 0 <= k < |st.issued| ensures WasRead(cfg, s, calls + [c], st.issued[k].user, st.issued[k].at) {
      ReadStays(cfg, s, calls, c, st.issued[k].user, st.issued[k].at);
    }
  }

  lemma {:induction false} PresentIsJoined(users: seq<UserRow>, u: UserRow)
    requires u in users
    ensures ActiveOf(users, u.id).Some?
  {
    if users[0].id != u.id {
      assert users == [users[0]] + users[1..];
      PresentIsJoined(users[1..], u);
    }
  }

  /** An accepted login read an active user. */
  lemma {:induction false} CheckReads(cfg: Settings, s: State, c: Call)
    requires c.LoginCheck? && CheckCredentials(cfg, s.db, c.email, c.password, c.remoteAddr, c.now).1.Success?
    ensures Reads(s.db.tables, CheckCredentials(cfg, s.db, c.email, c.password, c.remoteAddr, c.now).1.value)
  {
    var t := s.db.tables;
    var email := cfg.env.normalizeEmail(c.email);
    QueryExact(t, ByEmail(email));
    var stored := FindUser(t, email).value;
    var u :| u in t.users && ByEmail(email)(u) && Describes(t, u, stored);
    PresentIsJoined(t.users, u);
    assert stored == StoredUser(stored.user, stored.passwordHash, stored.active);
  }

  lemma {:induction false} ActiveIsPresent(users: seq<UserRow>, id: int)
    requires ActiveOf(users, id) == Some(true)
    ensures exists v :: v in users && v.id == id && v.active
  {
    if users[0].id == id {
      assert users[0] in users;
    } else {
      ActiveIsPresent(users[1..], id);
      var v :| v in users[1..] && v.id == id && v.active;
      assert v in users;
    }
  }

  /** A successful refresh read an active user. */
  lemma {:induction false} RefreshReads(cfg: Settings, s: State, c: Call)
    requires c.RefreshCall? && Refresh(cfg, s.db, c.raw, c.now, c.newRaw, c.tokenID).1.Success?
    ensures Reads(s.db.tables, Refresh(cfg, s.db, c.raw, c.now, c.newRaw, c.tokenID).1.value.user)
  {
    var t := s.db.tables;
    RefreshIsRotation(cfg, s, c);
    var id := s.db.tokens[IndexOf(s.db.tokens, cfg.env.hashToken(c.raw))].userId;
    Database.ActiveUserIsFound(t, id);
    ActiveIsPresent(t.users, id);
    var stored := FindUserByID(t, id).value;
    var u :| u in t.users && u.id == id && Describes(t, u, stored);
    assert stored == StoredUser(stored.user, stored.passwordHash, stored.active);
  }

  /** A call that reads a user adds the reading to the trace. */
  lemma {:induction false} ReadNow(cfg: Settings, s: State, calls: seq<Call>, c: Call, user: User)
    requires IsRun(cfg, s, calls) && (c.LoginCheck? || c.RefreshCall?) && Reads(After(cfg, s, calls).db.tables, user)
    ensures WasRead(cfg, s, calls + [c], user, c.now)
  {
    hide Reads;
    assert (calls + [c])[..|calls|] == calls && (calls + [c])[|calls|] == c;
    assert ReadAt(cfg, s, calls + [c], |calls|, user, c.now);
  }

  lemma {:induction false} CheckTraced(cfg: Settings, s: State, calls: seq<Call>, c: Call)
    requires IsRun(cfg, s, calls) && c.LoginCheck? && Traced(cfg, s, calls + [c], After(cfg, s, calls))
    ensures Traced(cfg, s, calls + [c], Step(cfg, After(cfg, s, calls), c))
  {
    hide CheckCredentials;
    hide WasRead;
    var st := After(cfg, s, calls);
    if CheckCredentials(cfg, st.db, c.email, c.password, c.remoteAddr, c.now).1.Success? {
      CheckReads(cfg, st, c);
      ReadNow(cfg, s, calls, c, CheckCredentials(cfg, st.db, c.email, c.password, c.remoteAddr, c.now).1.value);
    }
  }

  lemma {:induction false} StartTraced(cfg: Settings, s: State, calls: seq<Call>, c: Call)
    requires IsRun(cfg, s, calls) && c.LoginStart? && c.index < |After(cfg, s, calls).accepted|
    requires Traced(cfg, s, calls + [c], After(cfg, s, calls))
    ensures Traced(cfg, s, calls + [c], Step(cfg, After(cfg, s, calls), c))
  {
    hide WasRead;
    hide Issue;
    var a := After(cfg, s, calls).accepted[c.index];
    assert IssuedBy(cfg, Issuance(c.draw.family, a.user, a.at,
                                  Issue(cfg.manager, a.user, a.at, cfg.accessTTL, c.draw.tokenID), false));
  }

  lemma {:induction false} RefreshTraced(cfg: Settings, s: State, calls: seq<Call>, c: Call)
    requires IsRun(cfg, s, calls) && c.RefreshCall? && Traced(cfg, s, calls + [c], After(cfg, s, calls))
    ensures Traced(cfg, s, calls + [c], Step(cfg, After(cfg, s, calls), c))
  {
    hide WasRead;
    hide Issue;
    var st := After(cfg, s, calls);
    if Refresh(cfg, st.db, c.raw, c.now, c.newRaw, c.tokenID).1.Success? {
      RefreshReads(cfg, st, c);
      ReadNow(cfg, s, calls, c, Refresh(cfg, st.db, c.raw, c.now, c.newRaw, c.tokenID).1.value.user);
      assert IssuedBy(cfg, Step(cfg, st, c).issued[|Step(cfg, st, c).issued| - 1]);
    }
  }

  lemma {:induction false} StepTraced(cfg: Settings, s: State, calls: seq<Call>, c: Call)
    requires IsRun(cfg, s, calls) && Legal(After(cfg, s, calls), c) && Traced(cfg, s, calls, After(cfg, s, calls))
    ensures Traced(cfg, s, calls + [c], Step(cfg, After(cfg, s, calls), c))
  {
    hide WasRead;
    TracedStays(cfg, s, calls, c, After(cfg, s, calls));
    match c {
      case LoginCheck(_, _, _, _) => CheckTraced(cfg, s, calls, c);
      case LoginStart(_, _) => StartTraced(cfg, s, calls, c);
      case RefreshCall(_, _, _, _) => RefreshTraced(cfg, s, calls, c);
      case _ =>
    }
  }

  lemma {:induction false} InitialTraced(cfg: Settings, s: State, calls: seq<Call>)
    requires Initial(s)
    ensures Traced(cfg, s, calls, s)
  {
  }

  lemma {:induction false} RunTraced(cfg: Settings, s: State, calls: seq<Call>)
    requires Initial(s) && IsRun(cfg, s, calls)
    ensures Traced(cfg, s, calls, After(cfg, s, calls))
  {
    hide Traced;
    hide Step;
    if calls == [] {
      InitialTraced(cfg, s, calls);
    } else {
      var front := calls[..|calls| - 1];
      var c := calls[|calls| - 1];
      RunTraced(cfg, s, front);
      StepTraced(cfg, s, front, c);
      assert front + [c] == calls;
    }
  }

  // ---------------------------------------------------------------- requests

  ghost predicate SameClaims(m: TokenManager, raw: string, i: Issuance) {
    m.read(raw).Some? && m.read(i.token).Some? && m.read(raw).value.claims == m.read(i.token).value.claims
  }

  /** Signatures cannot be forged: text that carries a good signature carries the claims of an issued token. */
  ghost predicate Unforged(cfg: Settings, issued: seq<Issuance>, raw: string) {
    var m := cfg.manager;
    m.read(raw).Some? && m.verify(m.read(raw).value.alg, m.read(raw).value.keyID, m.read(raw).value.claims,
                                  m.read(raw).value.signature) ==>
      exists i :: i in issued && SameClaims(m, raw, i)
  }

  /** Text with the claims of an issued token is accepted, if at all, as the user of that token while it is usable. */
  lemma {:induction false} SameClaimsParse(cfg: Settings, raw: string, i: Issuance, t: Time)
    requires Correct(cfg.manager) && IssuedBy(cfg, i) && SameClaims(cfg.manager, raw, i)
    ensures Parse(cfg.manager, raw, t).Failure? ||
            (Parse(cfg.manager, raw, t).value.user == i.user && Usable(i.at, cfg.accessTTL, t))
    ensures Parse(cfg.manager, raw, t) in {Failure(Unauthenticated), Parse(cfg.manager, i.token, t)}
  {
    var id :| i.token == Issue(cfg.manager, i.user, i.at, cfg.accessTTL, id);
    ParseIssued(cfg.manager, i.user, i.at, cfg.accessTTL, id, t);
  }

  /** An accepted request carries the claims of a token that was issued, and authenticates as the user it was issued
      for. */
  lemma {:induction false} AuthenticatedFrom(cfg: Settings, issued: seq<Issuance>, raw: string, t: Time)
    returns (i: Issuance)
    requires Correct(cfg.manager) && Unforged(cfg, issued, raw) && Parse(cfg.manager, raw, t).Success?
    requires forall k :: 0 <= k < |issued| ==> IssuedBy(cfg, issued[k])
    ensures i in issued && Parse(cfg.manager, raw, t).value.user == i.user && Usable(i.at, cfg.accessTTL, t)
  {
    i :| i in issued && SameClaims(cfg.manager, raw, i);
    SameClaimsParse(cfg, raw, i, t);
  }

  /** Where an accepted request comes from: issuance i, whose user was read by call number m. */
  lemma {:induction false} RequestTraced(cfg: Settings, s: State, calls: seq<Call>, raw: string, t: Time)
    returns (i: Issuance, m: nat)
    requires Initial(s) && IsRun(cfg, s, calls) && Correct(cfg.manager)
    requires Unforged(cfg, After(cfg, s, calls).issued, raw) && Parse(cfg.manager, raw, t).Success?
    ensures i in After(cfg, s, calls).issued && Parse(cfg.manager, raw, t).value.user == i.user
    ensures i.at - SECOND < t < i.at + cfg.accessTTL
    ensures ReadAt(cfg, s, calls, m, i.user, i.at)
  {
    RunTraced(cfg, s, calls);
    i := AuthenticatedFrom(cfg, After(cfg, s, calls).issued, raw, t);
    UsableLifetime(i.at, cfg.accessTTL, t);
    m :| ReadAt(cfg, s, calls, m, i.user, i.at);
  }

  /** The rights that a described user shows are the rights that the tables give. */
  lemma {:induction false} ReadRights(t: Tables, user: User)
    requires Reads(t, user)
    ensures forall name :: name in user.permissions <==> HasPermission(t, user.id, name)
    ensures forall slug :: slug in user.roles <==> HasRole(t, user.id, slug)
  {
    var u, hash, active :| u in t.users && Describes(t, u, StoredUser(user, hash, active));
  }

  /** In every run: a request served behind a permission carries a token issued less than an access lifetime ago, for a
      user whom a login or refresh, made when the token was issued, read from the directory as active and as holding
      that permission through one of the user's roles. */
  lemma {:induction false} PermissionTraced(cfg: Settings, s: State, calls: seq<Call>, cookie: Option<string>, t: Time,
                                            permission: string)
    returns (i: Issuance, m: nat)
    requires Initial(s) && IsRun(cfg, s, calls) && Correct(cfg.manager)
    requires cookie.Some? ==> Unforged(cfg, After(cfg, s, calls).issued, cookie.value)
    requires RequirePermission(Open(cfg.manager), cookie, t, permission, Endpoint()).Served?
    ensures i in After(cfg, s, calls).issued && ReadAt(cfg, s, calls, m, i.user, i.at)
    ensures i.at - SECOND < t < i.at + cfg.accessTTL
    ensures HasPermission(After(cfg, s, calls[..m]).db.tables, i.user.id, permission)
    ensures RequirePermission(Open(cfg.manager), cookie, t, permission, Endpoint()).principal.user == i.user
  {
    PermissionExactly(Open(cfg.manager), cookie, t, permission, Endpoint());
    var p :| Is(Open(cfg.manager), cookie, t, p);
    i, m := RequestTraced(cfg, s, calls, cookie.value, t);
    ReadRights(After(cfg, s, calls[..m]).db.tables, i.user);
  }

  lemma {:induction false} RoleTraced(cfg: Settings, s: State, calls: seq<Call>, cookie: Option<string>, t: Time,
                                      role: string)
    returns (i: Issuance, m: nat)
    requires Initial(s) && IsRun(cfg, s, calls) && Correct(cfg.manager)
    requires cookie.Some? ==> Unforged(cfg, After(cfg, s, calls).issued, cookie.value)
    requires RequireRole(Open(cfg.manager), cookie, t, role, Endpoint()).Served?
    ensures i in After(cfg, s, calls).issued && ReadAt(cfg, s, calls, m, i.user, i.at)
    ensures i.at - SECOND < t < i.at + cfg.accessTTL
    ensures HasRole(After(cfg, s, calls[..m]).db.tables, i.user.id, role)
    ensures RequireRole(Open(cfg.manager), cookie, t, role, Endpoint()).principal.user == i.user
  {
    RoleExactly(Open(cfg.manager), cookie, t, role, Endpoint());
    var p :| Is(Open(cfg.manager), cookie, t, p);
    i, m := RequestTraced(cfg, s, calls, cookie.value, t);
    ReadRights(After(cfg, s, calls[..m]).db.tables, i.user);
  }

  // ---------------------------------------------------------------- the end of a session's access

  /** Every clock reading of the first n calls is at most T. */
  ghost predicate ReadingsUpTo(calls: seq<Call>, n: nat, T: Time) {
    forall j :: 0 <= j < n && j < |calls| && (calls[j].LoginCheck? || calls[j].RefreshCall?) ==> calls[j].now <= T
  }

  lemma {:induction false} IssuedForMember(issued: seq<Issuance>, family: string, i: Issuance)
    requires i in IssuedFor(issued, family)
    ensures i in issued && i.family == family
  {
    var n := |issued| - 1;
    if i in IssuedFor(issued[..n], family) {
      IssuedForMember(issued[..n], family, i);
    }
  }

  /** A token that the family had by call n was issued at a clock reading of those calls. */
  lemma {:induction false} IssuedByThen(cfg: Settings, s: State, calls: seq<Call>, n: nat, family: string, T: Time,
                                        i: Issuance)
    requires Initial(s) && n <= |calls| && IsRun(cfg, s, calls[..n]) && ReadingsUpTo(calls, n, T)
    requires i in IssuedFor(After(cfg, s, calls[..n]).issued, family)
    ensures i.at <= T && IssuedBy(cfg, i)
  {
    var past := calls[..n];
    IssuedForMember(After(cfg, s, past).issued, family, i);
    RunTraced(cfg, s, past);
    assert WasRead(cfg, s, past, i.user, i.at) && IssuedBy(cfg, i);
    var m: nat :| ReadAt(cfg, s, past, m, i.user, i.at);
    assert past[m] == calls[m];
  }

  /** From the end of its lifetime on, the claims of an issued token authenticate nobody. */
  lemma {:induction false} ExpiredRefused(cfg: Settings, i: Issuance, cookie: Option<string>, t: Time, next: Handler)
    requires Correct(cfg.manager) && IssuedBy(cfg, i) && t >= i.at + cfg.accessTTL
    requires cookie.Some? ==> SameClaims(cfg.manager, cookie.value, i)
    ensures RequireAuthentication(Open(cfg.manager), cookie, t, next) == Denied(UNAUTHORIZED)
  {
    UsableLifetime(i.at, cfg.accessTTL, t);
    if cookie.Some? {
      SameClaimsParse(cfg, cookie.value, i, t);
    }
  }

  /** After a family is revoked at time T, no request is admitted through any access token that the family's login or
      rotations issued, from T plus the access lifetime on, in any continuation. */
  lemma {:induction false} RevokedAccessEnds(cfg: Settings, s: State, calls: seq<Call>, n: nat, family: string, T: Time,
                                             i: Issuance, cookie: Option<string>, t: Time, next: Handler)
    requires Initial(s) && IsRun(cfg, s, calls) && n <= |calls| && IsRun(cfg, s, calls[..n]) && Correct(cfg.manager)
    requires FamilyRevoked(After(cfg, s, calls[..n]).db.tokens, family)
    requires KnownFamily(After(cfg, s, calls[..n]).db.tokens, family)
    requires ReadingsUpTo(calls, n, T)
    requires i in IssuedFor(After(cfg, s, calls).issued, family) && t >= T + cfg.accessTTL
    requires cookie.Some? ==> SameClaims(cfg.manager, cookie.value, i)
    ensures RequireAuthentication(Open(cfg.manager), cookie, t, next) == Denied(UNAUTHORIZED)
  {
    RevokedForever(cfg, s, calls, n, family);
    IssuedByThen(cfg, s, calls, n, family, T, i);
    ExpiredRefused(cfg, i, cookie, t, next);
  }
}

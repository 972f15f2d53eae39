/** The authentication and authorization handlers, as functions from a request to what happens to it. */
module Middleware {
  import opened Common
  import opened Directory
  import opened AccessTokens

  /** The part of the service that a handler consults; unavailable when any of its pieces is missing. */
  datatype Gate = Closed | Open(manager: TokenManager)

  datatype Response = Served(principal: Principal) | Denied(status: int)

  const SERVICE_UNAVAILABLE := 503
  const UNAUTHORIZED := 401
  const FORBIDDEN := 403

  type Handler = Principal -> Response

  function Endpoint(): Handler { p => Served(p) }

  function RequireAuthentication(gate: Gate, cookie: Option<string>, now: Time, next: Handler): Response {
    if gate.Closed? then Denied(SERVICE_UNAVAILABLE)
    else if cookie.None? || cookie.value == "" then Denied(UNAUTHORIZED)
    else
      match Parse(gate.manager, cookie.value, now)
      case Failure(error) => if error == Unavailable then Denied(SERVICE_UNAVAILABLE) else Denied(UNAUTHORIZED)
      case Success(principal) => next(principal)
  }

  /** The search loops hasPermission and hasRole. */
  function Contains(values: seq<string>, wanted: string): bool {
    values != [] && (values[0] == wanted || Contains(values[1..], wanted))
  }

  function RequirePermission(gate: Gate, cookie: Option<string>, now: Time, permission: string, next: Handler)
    : Response {
    RequireAuthentication(gate, cookie, now,
      (p: Principal) => if Contains(p.user.permissions, permission) then next(p) else Denied(FORBIDDEN))
  }

  function RequireRole(gate: Gate, cookie: Option<string>, now: Time, role: string, next: Handler): Response {
    RequireAuthentication(gate, cookie, now,
      (p: Principal) => if Contains(p.user.roles, role) then next(p) else Denied(FORBIDDEN))
  }

  /** RequireRole around RequirePermission, as a protected product route composes them; each layer authenticates the
      request again, at its own time. */
  function RequireBoth(gate: Gate, cookie: Option<string>, first: Time, second: Time, role: string, permission: string,
                       next: Handler)
    : Response {
    RequireRole(gate, cookie, first, role, _ => RequirePermission(gate, cookie, second, permission, next))
  }

  lemma {:induction false} ContainsIsMembership(values: seq<string>, wanted: string)
    ensures Contains(values, wanted) <==> wanted in values
  {
    if values != [] {
      ContainsIsMembership(values[1..], wanted);
      assert values == [values[0]] + values[1..];
    }
  }

  /** The principal that a request authenticates as. */
  ghost predicate Is(gate: Gate, cookie: Option<string>, now: Time, p: Principal) {
    gate.Open? && cookie.Some? && cookie.value != "" && Parse(gate.manager, cookie.value, now) == Success(p)
  }

  ghost predicate Anonymous(gate: Gate, cookie: Option<string>, now: Time) {
    forall p :: !Is(gate, cookie, now, p)
  }

  /** A manager never answers that it is unavailable. */
  lemma {:induction false} OneError(m: TokenManager, raw: string, now: Time)
    ensures Parse(m, raw, now).Failure? ==> Parse(m, raw, now).error == Unauthenticated
  {
  }

  /** Authentication hands a request to the handler behind it, under the principal of its token, or answers 401; without
      a service it answers 503. */
  lemma {:induction false} AuthenticationExactly(gate: Gate, cookie: Option<string>, now: Time, next: Handler)
    ensures var response := RequireAuthentication(gate, cookie, now, next);
            && (gate.Closed? ==> response == Denied(503))
            && (gate.Open? && Anonymous(gate, cookie, now) ==> response == Denied(401))
            && forall p :: Is(gate, cookie, now, p) ==> response == next(p)
  {
    if gate.Open? && cookie.Some? && cookie.value != "" {
      OneError(gate.manager, cookie.value, now);
      var parsed := Parse(gate.manager, cookie.value, now);
      assert parsed.Success? ==> Is(gate, cookie, now, parsed.value);
    }
  }

  /** The handler behind a permission gets exactly the requests that authenticate as a principal with that permission,
      and its answer is passed on; without the permission the answer is 403, without a principal 401. */
  lemma {:induction false} PermissionExactly(gate: Gate, cookie: Option<string>, now: Time, permission: string,
                                             next: Handler)
    ensures var response := RequirePermission(gate, cookie, now, permission, next);
            && (gate.Closed? ==> response == Denied(503))
            && (gate.Open? && Anonymous(gate, cookie, now) ==> response == Denied(401))
            && forall p :: Is(gate, cookie, now, p) ==>
                 response == if permission in p.user.permissions then next(p) else Denied(403)
  {
    var inner := (p: Principal) => if Contains(p.user.permissions, permission) then next(p) else Denied(FORBIDDEN);
    AuthenticationExactly(gate, cookie, now, inner);
    forall p: Principal ensures inner(p) == if permission in p.user.permissions then next(p) else Denied(403) {
      ContainsIsMembership(p.user.permissions, permission);
    }
  }

  lemma {:induction false} RoleExactly(gate: Gate, cookie: Option<string>, now: Time, role: string, next: Handler)
    ensures var response := RequireRole(gate, cookie, now, role, next);
            && (gate.Closed? ==> response == Denied(503))
            && (gate.Open? && Anonymous(gate, cookie, now) ==> response == Denied(401))
            && forall p :: Is(gate, cookie, now, p) ==>
                 response == if role in p.user.roles then next(p) else Denied(403)
  {
    var inner := (p: Principal) => if Contains(p.user.roles, role) then next(p) else Denied(FORBIDDEN);
    AuthenticationExactly(gate, cookie, now, inner);
    forall p: Principal ensures inner(p) == if role in p.user.roles then next(p) else Denied(403) {
      ContainsIsMembership(p.user.roles, role);
    }
  }

  /** Neither the role nor the permission is enough alone; the role is asked first, a token that expires between the
      layers is refused, and only then the handler behind both is asked, under the principal of the inner layer. */
  lemma {:induction false} BothExactly(gate: Gate, cookie: Option<string>, first: Time, second: Time, role: string,
                                       permission: string, next: Handler)
    ensures var response := RequireBoth(gate, cookie, first, second, role, permission, next);
            && (gate.Closed? ==> response == Denied(503))
            && (gate.Open? && Anonymous(gate, cookie, first) ==> response == Denied(401))
            && forall p :: Is(gate, cookie, first, p) ==>
                 if role !in p.user.roles then response == Denied(403)
                 else if Anonymous(gate, cookie, second) then response == Denied(401)
                 else forall q :: Is(gate, cookie, second, q) ==>
                        response == if permission in q.user.permissions then next(q) else Denied(403)
  {
    var inner: Handler := _ => RequirePermission(gate, cookie, second, permission, next);
    RoleExactly(gate, cookie, first, role, inner);
    PermissionExactly(gate, cookie, second, permission, next);
  }
}

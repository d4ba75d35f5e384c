/**
 * The Gin middleware that guards routes: AuthMiddleware turns the
 * Authorization header into a 401 response or stored claims, and
 * RequireAdmin turns the stored claims into a 401, a 403 or the next
 * handler. Each handler's effect on the request context (the JSON written,
 * Abort, Set, Next) is returned as a value.
 *
 * This middleware parses with its own JWT library and secret and does not
 * consult AuthService's revocation table.
 */
module Middleware {
  import opened Wrappers
  import opened Bearer

  /** The role that RequireAdmin lets through. */
  const RoleAdmin: string := "admin"

  /** The context key under which AuthMiddleware stores the claims. */
  const UserKey: string := "user"

  /** The Claims struct: user ID, username and role (the registered claims are checked by the parse). */
  datatype UserClaims = UserClaims(userId: nat, username: string, role: string)

  /** What jwt.ParseWithClaims reports: an error, token.Valid, and the claims it filled in. */
  datatype ParsedClaims = ParsedClaims(failed: bool, valid: bool, claims: UserClaims)

  type ClaimsParser = string -> ParsedClaims

  /** A JSON error response: status code and the "error" field. */
  datatype Response = Response(status: int, error: string)

  const Unauthorized: Response := Response(401, "Unauthorized")
  const Forbidden: Response := Response(403, "Forbidden")

  /**
   * What one handler did to the request context: the response it wrote,
   * whether it called Abort, the context keys afterwards, and how many
   * times it called Next.
   */
  datatype Effect = Effect(response: Option<Response>, aborted: bool, keys: map<string, UserClaims>, nextCalls: nat)

  /** c.JSON(resp) followed by c.Abort(). */
  function Abort(keys: map<string, UserClaims>, resp: Response): Effect
  {
    Effect(Some(resp), true, keys, 0)
  }

  /** c.Next() with nothing written. */
  function Proceed(keys: map<string, UserClaims>): Effect
  {
    Effect(None, false, keys, 1)
  }

  /**
   * AuthMiddleware: an empty header or a token that fails to parse or is
   * invalid gives 401 "Unauthorized" and Abort with nothing stored;
   * otherwise the claims are stored under "user" and Next runs once.
   */
  function AuthMiddleware(header: string, parse: ClaimsParser, keys: map<string, UserClaims>): (e: Effect)
    ensures e.nextCalls <= 1 && (e.aborted <==> e.nextCalls == 0)
    ensures header == "" ==> e == Abort(keys, Unauthorized)
    ensures e.nextCalls == 1 <==>
      header != "" && !parse(TrimBearer(header)).failed && parse(TrimBearer(header)).valid
    ensures e.aborted ==> e.response == Some(Unauthorized) && e.keys == keys
    ensures e.nextCalls == 1 ==>
      e.response == None && e.keys == keys[UserKey := parse(TrimBearer(header)).claims]
  {
    if header == "" then Abort(keys, Unauthorized)
    else
      var token := parse(TrimBearer(header));
      if token.failed || !token.valid then Abort(keys, Unauthorized)
      else Proceed(keys[UserKey := token.claims])
  }

  /**
   * RequireAdmin: no stored claims give 401 "Unauthorized", a role other
   * than admin gives 403 "Forbidden", both with Abort; an admin proceeds.
   * The context keys are never changed.
   */
  function RequireAdmin(keys: map<string, UserClaims>): (e: Effect)
    ensures e.keys == keys && e.nextCalls <= 1 && (e.aborted <==> e.nextCalls == 0)
    ensures UserKey !in keys ==> e.response == Some(Unauthorized) && e.aborted
    ensures UserKey in keys && keys[UserKey].role != RoleAdmin ==> e.response == Some(Forbidden) && e.aborted
    ensures e.nextCalls == 1 <==> UserKey in keys && keys[UserKey].role == RoleAdmin
    ensures e.nextCalls == 1 ==> e.response == None
  {
    if UserKey !in keys then Abort(keys, Unauthorized)
    else if keys[UserKey].role != RoleAdmin then Abort(keys, Forbidden)
    else Proceed(keys)
  }

  /**
   * An admin route: AuthMiddleware on a fresh context, then RequireAdmin
   * only if AuthMiddleware called Next. The route's handler runs exactly
   * when the header is non-empty, the stripped token parses as valid and
   * its role is admin; a valid non-admin token gets 403 and every other
   * refusal 401.
   */
  function AdminRoute(header: string, parse: ClaimsParser): (e: Effect)
    ensures var token := parse(TrimBearer(header));
      e.nextCalls == 1 <==>
        header != "" && !token.failed && token.valid && token.claims.role == RoleAdmin
    ensures var token := parse(TrimBearer(header));
      header != "" && !token.failed && token.valid && token.claims.role != RoleAdmin
      ==> e.response == Some(Forbidden) && e.aborted
    ensures var token := parse(TrimBearer(header));
      (header == "" || token.failed || !token.valid) ==> e.response == Some(Unauthorized) && e.aborted
  {
    var auth := AuthMiddleware(header, parse, map[]);
    if auth.nextCalls == 1 then RequireAdmin(auth.keys) else auth
  }
}

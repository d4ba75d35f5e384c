/**
 * AuthService: registration, login, logout with a table of revoked tokens,
 * token verification, and password reset.
 *
 * The JWT library, bcrypt and the clock are parameters: a Parser and a
 * Signer (module Jwt), a Hasher and a Matcher, and `now` in Unix seconds.
 * The users table is a Repo value (module Users); operations that write it
 * return the new table beside their result.
 */
module AuthService {
  import opened Wrappers
  import opened Bearer
  import opened Jwt
  import opened Users

  /** Lifetime of a login token: 24 hours. */
  const TokenExpiry: int := 24 * 60 * 60

  /** Lifetime of a password-reset token: 1 hour. */
  const ResetTokenExpiry: int := 60 * 60

  /** The only purpose a reset token may carry. */
  const PasswordResetPurpose: string := "password_reset"

  /** The role of every newly registered user. */
  const DefaultRole: string := "user"

  /** bcrypt.GenerateFromPassword; None when hashing fails. */
  type Hasher = string -> Option<string>

  /** bcrypt.CompareHashAndPassword(hashed, plain) == nil. */
  type Matcher = (string, string) -> bool

  datatype AuthError =
    | EmailAlreadyRegistered      // "email already registered"
    | InvalidCredentials          // "invalid credentials"
    | InvalidToken                // "invalid token"
    | InvalidTokenClaims          // "invalid token claims"
    | InvalidTokenExpiration      // "invalid token expiration"
    | TokenRevoked                // "token has been revoked"
    | TokenExpired                // "token has expired"
    | UserNotFound                // "user not found"
    | InvalidOrExpiredResetToken  // "invalid or expired reset token"
    | InvalidTokenPurpose         // "invalid token purpose"
    | ParseFailed                 // the error jwt.Parse returned, passed on
    | RepositoryFailed            // an error of the users table, passed on
    | HashFailed                  // bcrypt could not hash the password
    | SigningFailed               // the token could not be signed
    | UserIdPanic                 // the float64 assertion on a missing or non-numeric user_id claim panics

  /** VerifyToken's answer: (true, nil) or (false, err). */
  datatype Verdict = Accept | Reject(error: AuthError)

  /** The result of an operation that may write the users table, with the table afterwards. */
  datatype Change<T> = Change(result: Result<T, AuthError>, repo: Repo)

  // ---------------------------------------------------------------------
  // Revocation table

  /**
   * The expiry Logout records for an already stripped token string: its
   * numeric `exp` claim, provided the parse raised no error and gave map
   * claims. None exactly when Logout fails.
   */
  function RevocationExpiry(parse: Parser, key: string): Option<int>
  {
    var t := parse(key);
    if t.failed || !t.mapClaims then None else NumberClaim(t.claims, "exp")
  }

  /** The table after Logout(tokenString): the stripped string is revoked until its expiry. */
  function AfterLogout(blacklist: map<string, int>, parse: Parser, tokenString: string): map<string, int>
  {
    var key := TrimBearer(tokenString);
    match RevocationExpiry(parse, key)
    case Some(exp) => blacklist[key := exp]
    case None => blacklist
  }

  /** The table after cleanupBlacklist at `now`: entries whose expiry is not before `now`. */
  function Cleaned(blacklist: map<string, int>, now: int): map<string, int>
  {
    map key | key in blacklist && now <= blacklist[key] :: blacklist[key]
  }

  /** isTokenBlacklisted: key membership; the stored expiry plays no part. */
  function IsTokenBlacklisted(blacklist: map<string, int>, key: string): (r: bool)
    ensures r <==> key in blacklist.Keys
  {
    key in blacklist
  }

  /**
   * The service's mutable state: the revoked token strings and their
   * expiries. The signing secret is fixed when the service is built, so the
   * parse it gives rise to is a constant of the object.
   */
  class AuthService {
    var blacklist: map<string, int>
    const parse: Parser

    /** NewAuthService: the parse over the given secret, and nothing revoked. */
    constructor (parse: Parser)
      ensures this.parse == parse && blacklist == map[]
    {
      this.parse := parse;
      blacklist := map[];
    }

    /**
     * Logout: strips "Bearer ", parses, and on success revokes the stripped
     * string until its `exp`; every failure leaves the table as it was.
     */
    method Logout(tokenString: string) returns (err: Option<AuthError>)
      modifies this
      ensures blacklist == AfterLogout(old(blacklist), parse, tokenString)
      ensures err.None? <==> RevocationExpiry(parse, TrimBearer(tokenString)).Some?
      ensures err.Some? ==> blacklist == old(blacklist)
      ensures err.None? ==> TrimBearer(tokenString) in blacklist
      ensures err.None? ==> forall k :: k in old(blacklist) && k != TrimBearer(tokenString) ==>
        k in blacklist && blacklist[k] == old(blacklist)[k]
      ensures var t := parse(TrimBearer(tokenString));
        && (t.failed ==> err == Some(InvalidToken))
        && (!t.failed && !t.mapClaims ==> err == Some(InvalidTokenClaims))
        && (!t.failed && t.mapClaims && NumberClaim(t.claims, "exp").None? ==> err == Some(InvalidTokenExpiration))
    {
      var key := TrimBearer(tokenString);
      var token := parse(key);
      if token.failed {
        return Some(InvalidToken);
      }
      if !token.mapClaims {
        return Some(InvalidTokenClaims);
      }
      var exp := NumberClaim(token.claims, "exp");
      if exp.None? {
        return Some(InvalidTokenExpiration);
      }
      blacklist := blacklist[key := exp.value];
      err := None;
    }

    /** cleanupBlacklist: walks the table and deletes every entry whose expiry lies before `now`. */
    method CleanupBlacklist(now: int)
      modifies this
      ensures blacklist == Cleaned(old(blacklist), now)
      ensures forall k :: k in blacklist <==> k in old(blacklist) && now <= old(blacklist)[k]
      ensures forall k :: k in blacklist ==> blacklist[k] == old(blacklist)[k]
    {
      var pending := blacklist.Keys;
      while pending != {}
        invariant pending <= old(blacklist).Keys
        invariant blacklist.Keys <= old(blacklist).Keys
        invariant forall k :: k in old(blacklist) ==>
          (k in blacklist <==> k in pending || now <= old(blacklist)[k])
        invariant forall k :: k in blacklist ==> blacklist[k] == old(blacklist)[k]
        decreases pending
      {
        var token :| token in pending;
        if now > blacklist[token] {
          blacklist := blacklist - {token};
        }
        pending := pending - {token};
      }
    }
  }

  // ---------------------------------------------------------------------
  // Verification

  /**
   * VerifyToken: strips "Bearer ", then rejects a revoked string before
   * parsing it, then a parse error (including a signing method other than
   * HMAC), an invalid token, claims that are not a map, a missing or
   * non-numeric `exp`, a token past its expiry, and a user that no longer
   * exists. It reads the table and never writes it.
   */
  function VerifyToken(blacklist: map<string, int>, repo: Repo, parse: Parser, tokenString: string, now: int): (v: Verdict)
    ensures IsTokenBlacklisted(blacklist, TrimBearer(tokenString)) ==> v == Reject(TokenRevoked)
    ensures var t := parse(TrimBearer(tokenString));
      v == Accept <==>
        && TrimBearer(tokenString) !in blacklist
        && t.hmac && !t.failed && t.valid && t.mapClaims
        && NumberClaim(t.claims, "exp").Some? && now <= NumberClaim(t.claims, "exp").value
        && NumberClaim(t.claims, "user_id").Some?
        && ExistsById(repo, NumberClaim(t.claims, "user_id").value) == Ok(true)
    ensures var t := parse(TrimBearer(tokenString));
      TrimBearer(tokenString) !in blacklist && t.hmac && !t.failed && t.valid && t.mapClaims
      && NumberClaim(t.claims, "exp").Some? && now > NumberClaim(t.claims, "exp").value
      ==> v == Reject(TokenExpired)
  {
    var key := TrimBearer(tokenString);
    if IsTokenBlacklisted(blacklist, key) then Reject(TokenRevoked)
    else
      var t := parse(key);
      if t.failed || !t.hmac then Reject(ParseFailed)
      else if !t.valid then Reject(InvalidToken)
      else if !t.mapClaims then Reject(InvalidTokenClaims)
      else match NumberClaim(t.claims, "exp")
        case None => Reject(InvalidTokenExpiration)
        case Some(exp) =>
          if now > exp then Reject(TokenExpired)
          else match NumberClaim(t.claims, "user_id")
            case None => Reject(UserIdPanic)
            case Some(id) =>
              match ExistsById(repo, id)
              case Err(_) => Reject(RepositoryFailed)
              case Ok(exists_) => if exists_ then Accept else Reject(UserNotFound)
  }

  // ---------------------------------------------------------------------
  // Registration, login and password reset

  /**
   * Register: refuses an email already registered without inserting
   * anything; otherwise stores the user with the hashed password and role
   * "user". Every failure leaves the table as it was.
   */
  function Register(repo: Repo, username: string, email: string, password: string, hash: Hasher): (c: Change<User>)
    ensures repo.up && EmailTaken(repo.users, email) ==> c == Change(Err(EmailAlreadyRegistered), repo)
    ensures c.result == Err(EmailAlreadyRegistered) ==> repo.up && EmailTaken(repo.users, email)
    ensures (repo.up && !EmailTaken(repo.users, email) && !UsernameTaken(repo.users, username)
             && hash(password).Some?) ==> c.result.Ok?
    ensures c.result.Err? ==> c.repo == repo
    ensures c.result.Ok? ==>
      var u := c.result.value;
      && !EmailTaken(repo.users, email)
      && u.role == DefaultRole && u.username == username && u.email == email
      && hash(password) == Some(u.password)
      && c.repo.users == repo.users + [u] && c.repo.up
  {
    match ExistsByEmail(repo, email)
    case Err(_) => Change(Err(RepositoryFailed), repo)
    case Ok(exists_) =>
      if exists_ then Change(Err(EmailAlreadyRegistered), repo)
      else match hash(password)
        case None => Change(Err(HashFailed), repo)
        case Some(hashed) =>
          match Create(repo, User(0, username, email, hashed, DefaultRole))
          case Err(_) => Change(Err(RepositoryFailed), repo)
          case Ok(ins) => Change(Ok(ins.user), ins.repo)
  }

  /** The claims of a login token issued at `now`. */
  function LoginClaims(u: User, now: int): Claims
  {
    map["user_id" := Number(u.id), "email" := Text(u.email), "role" := Text(u.role),
        "exp" := Number(now + TokenExpiry)]
  }

  /**
   * Login: an unknown email and a wrong password give the same error;
   * otherwise the token is the signature of the user's login claims.
   */
  function Login(repo: Repo, email: string, password: string, matches: Matcher, sign: Signer, now: int): (r: Result<string, AuthError>)
    ensures FindByEmail(repo, email).Err? ==> r == Err(InvalidCredentials)
    ensures FindByEmail(repo, email).Ok? && !matches(FindByEmail(repo, email).value.password, password)
      ==> r == Err(InvalidCredentials)
    ensures FindByEmail(repo, email).Ok? && matches(FindByEmail(repo, email).value.password, password)
      && sign(LoginClaims(FindByEmail(repo, email).value, now)).Some?
      ==> r == Ok(sign(LoginClaims(FindByEmail(repo, email).value, now)).value)
    ensures r.Ok? ==>
      && FindByEmail(repo, email).Ok?
      && matches(FindByEmail(repo, email).value.password, password)
      && sign(LoginClaims(FindByEmail(repo, email).value, now)) == Some(r.value)
  {
    match FindByEmail(repo, email)
    case Err(_) => Err(InvalidCredentials)
    case Ok(u) =>
      if !matches(u.password, password) then Err(InvalidCredentials)
      else match sign(LoginClaims(u, now))
        case None => Err(SigningFailed)
        case Some(token) => Ok(token)
  }

  /** The claims of a password-reset token issued at `now`. */
  function ResetClaims(u: User, now: int): Claims
  {
    map["user_id" := Number(u.id), "email" := Text(u.email), "purpose" := Text(PasswordResetPurpose),
        "exp" := Number(now + ResetTokenExpiry)]
  }

  /** GeneratePasswordResetToken: "user not found" for an unknown email, else the signed reset claims. */
  function GeneratePasswordResetToken(repo: Repo, email: string, sign: Signer, now: int): (r: Result<string, AuthError>)
    ensures FindByEmail(repo, email).Err? ==> r == Err(UserNotFound)
    ensures FindByEmail(repo, email).Ok? && sign(ResetClaims(FindByEmail(repo, email).value, now)).Some?
      ==> r == Ok(sign(ResetClaims(FindByEmail(repo, email).value, now)).value)
    ensures r.Ok? ==>
      && FindByEmail(repo, email).Ok?
      && sign(ResetClaims(FindByEmail(repo, email).value, now)) == Some(r.value)
  {
    match FindByEmail(repo, email)
    case Err(_) => Err(UserNotFound)
    case Ok(u) =>
      match sign(ResetClaims(u, now))
      case None => Err(SigningFailed)
      case Some(token) => Ok(token)
  }

  /**
   * ResetPassword: accepts only a valid token whose `purpose` is exactly
   * "password_reset" and then sets the hashed new password of the user its
   * `user_id` names. No failure writes the table. The token is neither
   * stripped nor looked up in the revocation table.
   */
  function ResetPassword(repo: Repo, resetToken: string, newPassword: string, parse: Parser, hash: Hasher): (c: Change<()>)
    ensures c.result.Err? ==> c.repo == repo
    ensures var t := parse(resetToken);
      (t.failed || !t.valid) ==> c.result == Err(InvalidOrExpiredResetToken)
    ensures var t := parse(resetToken);
      !t.failed && t.valid && t.mapClaims && TextClaim(t.claims, "purpose") != Some(PasswordResetPurpose)
      ==> c.result == Err(InvalidTokenPurpose)
    ensures c.result.Ok? ==>
      var t := parse(resetToken);
      && !t.failed && t.valid && t.mapClaims
      && TextClaim(t.claims, "purpose") == Some(PasswordResetPurpose)
      && NumberClaim(t.claims, "user_id").Some?
      && hash(newPassword).Some?
      && |c.repo.users| == |repo.users|
      && forall i :: 0 <= i < |repo.users| ==>
           c.repo.users[i] ==
             if repo.users[i].id == NumberClaim(t.claims, "user_id").value
             then repo.users[i].(password := hash(newPassword).value)
             else repo.users[i]
  {
    var t := parse(resetToken);
    if t.failed || !t.valid then Change(Err(InvalidOrExpiredResetToken), repo)
    else if !t.mapClaims then Change(Err(InvalidTokenClaims), repo)
    else if TextClaim(t.claims, "purpose") != Some(PasswordResetPurpose) then Change(Err(InvalidTokenPurpose), repo)
    else match NumberClaim(t.claims, "user_id")
      case None => Change(Err(UserIdPanic), repo)
      case Some(id) =>
        match hash(newPassword)
        case None => Change(Err(HashFailed), repo)
        case Some(hashed) =>
          match UpdatePassword(repo, id, hashed)
          case Err(_) => Change(Err(RepositoryFailed), repo)
          case Ok(updated) => Change(Ok(()), updated)
  }
}

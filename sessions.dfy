/**
 * How the tokens AuthService issues travel between its operations: a
 * registered user can log in, a login token verifies until it expires and
 * cannot reset a password, and a reset token does reset it.
 */
module Sessions {
  import opened Wrappers
  import opened Bearer
  import opened Jwt
  import opened Users
  import opened AuthService

  /** bcrypt's pair: a hash it produced matches the password it came from. */
  ghost predicate HashMatches(hash: Hasher, matches: Matcher)
  {
    forall p: string :: hash(p).Some? ==> matches(hash(p).value, p)
  }

  /** Appending a user whose email is new makes it what a lookup by that email finds. */
  lemma {:induction false} FirstWithEmailAppend(users: seq<User>, u: User)
    requires !EmailTaken(users, u.email)
    ensures FirstWithEmail(users + [u], u.email) == Some(|users|)
  {
    var s := users + [u];
    assert s[|users|].email == u.email;
    var r := FirstWithEmail(s, u.email);
    assert r.Some?;
  }

  /** Register then Login with the same email and password succeeds with the user's login token. */
  lemma RegisteredUserCanLogIn(repo: Repo, username: string, email: string, password: string,
                               hash: Hasher, matches: Matcher, sign: Signer, now: int)
    requires HashMatches(hash, matches)
    requires Register(repo, username, email, password, hash).result.Ok?
    requires sign(LoginClaims(Register(repo, username, email, password, hash).result.value, now)).Some?
    ensures var c := Register(repo, username, email, password, hash);
      Login(c.repo, email, password, matches, sign, now) == Ok(sign(LoginClaims(c.result.value, now)).value)
  {
    var c := Register(repo, username, email, password, hash);
    var u := c.result.value;
    FirstWithEmailAppend(repo.users, u);
    assert FindByEmail(c.repo, email) == Ok(u);
    assert matches(hash(password).value, password);
  }

  /**
   * A login token, presented as "Bearer <token>", verifies at any time up
   * to its expiry while it is not revoked, the library accepts it and the
   * user is still stored.
   */
  lemma LoginTokenVerifies(repo: Repo, email: string, password: string, matches: Matcher,
                           sign: Signer, parse: Parser, issuedAt: int,
                           blacklist: map<string, int>, now: int)
    requires Signs(sign, parse)
    requires Login(repo, email, password, matches, sign, issuedAt).Ok?
    requires var token := Login(repo, email, password, matches, sign, issuedAt).value;
      token !in blacklist && !parse(token).failed && parse(token).valid
    requires now <= issuedAt + TokenExpiry
    ensures var token := Login(repo, email, password, matches, sign, issuedAt).value;
      VerifyToken(blacklist, repo, parse, BearerPrefix + token, now) == Accept
  {
    var token := Login(repo, email, password, matches, sign, issuedAt).value;
    var u := FindByEmail(repo, email).value;
    TrimBearerUndoesPrefix(token);
    assert parse(token).claims == LoginClaims(u, issuedAt);
    assert NumberClaim(LoginClaims(u, issuedAt), "user_id") == Some(u.id as int);
    assert ExistsById(repo, u.id) == Ok(true);
  }

  /**
   * Once the clock passes its `exp`, the same token is rejected whatever
   * the library says of it; when the library still accepts it, the
   * rejection is the service's own "token has expired".
   */
  lemma LoginTokenExpires(repo: Repo, email: string, password: string, matches: Matcher,
                          sign: Signer, parse: Parser, issuedAt: int,
                          blacklist: map<string, int>, now: int)
    requires Signs(sign, parse)
    requires Login(repo, email, password, matches, sign, issuedAt).Ok?
    requires now > issuedAt + TokenExpiry
    ensures var token := Login(repo, email, password, matches, sign, issuedAt).value;
      VerifyToken(blacklist, repo, parse, BearerPrefix + token, now).Reject?
    ensures var token := Login(repo, email, password, matches, sign, issuedAt).value;
      token !in blacklist && !parse(token).failed && parse(token).valid ==>
      VerifyToken(blacklist, repo, parse, BearerPrefix + token, now) == Reject(TokenExpired)
  {
    var token := Login(repo, email, password, matches, sign, issuedAt).value;
    var u := FindByEmail(repo, email).value;
    TrimBearerUndoesPrefix(token);
    assert parse(token).claims == LoginClaims(u, issuedAt);
  }

  /** A login token carries no `purpose`, so ResetPassword refuses it and writes nothing. */
  lemma LoginTokenCannotResetPassword(repo: Repo, email: string, password: string, matches: Matcher,
                                      sign: Signer, parse: Parser, issuedAt: int,
                                      current: Repo, newPassword: string, hash: Hasher)
    requires Signs(sign, parse)
    requires Login(repo, email, password, matches, sign, issuedAt).Ok?
    ensures var token := Login(repo, email, password, matches, sign, issuedAt).value;
      var c := ResetPassword(current, token, newPassword, parse, hash);
      && c.repo == current
      && (c.result == Err(InvalidOrExpiredResetToken) || c.result == Err(InvalidTokenPurpose))
  {
    var token := Login(repo, email, password, matches, sign, issuedAt).value;
    var u := FindByEmail(repo, email).value;
    assert parse(token).claims == LoginClaims(u, issuedAt);
    assert "purpose" !in LoginClaims(u, issuedAt);
  }

  /**
   * A reset token the library accepts resets the password of the user it
   * was issued for, in whatever state the table is when it is used.
   */
  lemma ResetTokenResetsPassword(repo: Repo, email: string, sign: Signer, parse: Parser, issuedAt: int,
                                 current: Repo, newPassword: string, hash: Hasher)
    requires Signs(sign, parse)
    requires GeneratePasswordResetToken(repo, email, sign, issuedAt).Ok?
    requires var token := GeneratePasswordResetToken(repo, email, sign, issuedAt).value;
      !parse(token).failed && parse(token).valid
    requires current.up && hash(newPassword).Some?
    ensures var token := GeneratePasswordResetToken(repo, email, sign, issuedAt).value;
      var c := ResetPassword(current, token, newPassword, parse, hash);
      var u := FindByEmail(repo, email).value;
      && c.result.Ok?
      && forall i :: 0 <= i < |current.users| && current.users[i].id == u.id ==>
           c.repo.users[i].password == hash(newPassword).value
  {
    var token := GeneratePasswordResetToken(repo, email, sign, issuedAt).value;
    var u := FindByEmail(repo, email).value;
    assert parse(token).claims == ResetClaims(u, issuedAt);
    assert TextClaim(ResetClaims(u, issuedAt), "purpose") == Some(PasswordResetPurpose);
    assert NumberClaim(ResetClaims(u, issuedAt), "user_id") == Some(u.id as int);
  }
}

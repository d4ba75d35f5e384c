/**
 * The JSON Web Token library (HS256 signing, section 3.2 of RFC 7518) seen
 * only through what the authentication code asks of it: a parse that reports
 * the signing method, an error, validity and the decoded claims, and a
 * signer that may fail.
 */
module Jwt {
  import opened Wrappers

  /** A decoded claim: a JSON number (whole seconds or an ID here), a string, or anything else. */
  datatype Claim = Number(n: int) | Text(s: string) | Other

  type Claims = map<string, Claim>

  /**
   * What jwt.Parse reports for one token string:
   * hmac      - the header names an HMAC signing method;
   * failed    - the library returned an error of its own (malformed input,
   *             bad signature, its own claim checks);
   * valid     - token.Valid;
   * mapClaims - the claims decoded as jwt.MapClaims.
   */
  datatype Token = Token(hmac: bool, failed: bool, valid: bool, mapClaims: bool, claims: Claims)

  type Parser = string -> Token

  /** token.SignedString over the service's secret; None when signing fails. */
  type Signer = Claims -> Option<string>

  /** Go's float64 assertion on a claim, in whole numbers: the number when the claim is present and numeric. */
  function NumberClaim(claims: Claims, key: string): (r: Option<int>)
    ensures r.Some? <==> key in claims && claims[key].Number?
    ensures r.Some? ==> claims[key] == Number(r.value)
  {
    if key in claims && claims[key].Number? then Some(claims[key].n) else None
  }

  /** Go's string assertion on a claim: the text when the claim is present and a string. */
  function TextClaim(claims: Claims, key: string): (r: Option<string>)
    ensures r.Some? <==> key in claims && claims[key].Text?
    ensures r.Some? ==> claims[key] == Text(r.value)
  {
    if key in claims && claims[key].Text? then Some(claims[key].s) else None
  }

  /**
   * The one property of the library the code relies on: a string produced
   * by signing some claims parses back, as HMAC, to exactly those claims.
   * Whether the library then reports an error (for instance because the
   * token has expired by its own clock) is left open.
   */
  ghost predicate Signs(sign: Signer, parse: Parser)
  {
    forall c: Claims :: sign(c).Some? ==>
      var t := parse(sign(c).value);
      t.hmac && t.mapClaims && t.claims == c
  }
}

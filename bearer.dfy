/**
 * Go's strings.TrimPrefix and the "Bearer " authentication scheme of
 * RFC 6750 section 2.1, which both the service and the middleware strip
 * from a token string before looking at it.
 */
module Bearer {

  /** The scheme prefix a client writes before its token. */
  const BearerPrefix: string := "Bearer "

  /** strings.TrimPrefix: `s` without `prefix` when `s` starts with it, `s` itself otherwise. */
  function TrimPrefix(s: string, prefix: string): (r: string)
    ensures prefix <= s ==> s == prefix + r
    ensures !(prefix <= s) ==> r == s
    ensures |r| <= |s|
  {
    if prefix <= s then s[|prefix|..] else s
  }

  /** The normalisation applied to a token string before any lookup or parse. */
  function TrimBearer(s: string): string
  {
    TrimPrefix(s, BearerPrefix)
  }

  /** Stripping undoes the prefix a client adds: "Bearer X" and X give the same key. */
  lemma TrimBearerUndoesPrefix(x: string)
    ensures TrimBearer(BearerPrefix + x) == x
  {
    var s := BearerPrefix + x;
    assert BearerPrefix <= s;
    assert s[|BearerPrefix|..] == x;
  }

  /** Exactly one prefix goes: "Bearer Bearer X" becomes "Bearer X", and X without the prefix is left alone. */
  lemma TrimBearerRemovesOnlyOne(x: string)
    ensures TrimBearer(BearerPrefix + (BearerPrefix + x)) == BearerPrefix + x
    ensures !(BearerPrefix <= x) ==> TrimBearer(x) == x
  {
    TrimBearerUndoesPrefix(BearerPrefix + x);
  }
}

/**
 * What the revocation table guarantees over any interleaving of logouts and
 * cleanups: a token that has been logged out is never accepted again,
 * because cleanup deletes an entry only once VerifyToken would reject the
 * token for its expiry anyway.
 */
module Revocation {
  import opened Wrappers
  import opened Bearer
  import opened Jwt
  import opened Users
  import opened AuthService

  /** One call that writes the table: Logout of a token string, or a cleanup at some time. */
  datatype TableOp = LogoutOp(tokenString: string) | CleanupOp(now: int)

  function Apply(blacklist: map<string, int>, parse: Parser, op: TableOp): map<string, int>
  {
    match op
    case LogoutOp(t) => AfterLogout(blacklist, parse, t)
    case CleanupOp(now) => Cleaned(blacklist, now)
  }

  /** The table after the calls in `ops`, in order. */
  function Run(blacklist: map<string, int>, parse: Parser, ops: seq<TableOp>): map<string, int>
    decreases |ops|
  {
    if ops == [] then blacklist else Run(Apply(blacklist, parse, ops[0]), parse, ops[1..])
  }

  /** Every cleanup in `ops` runs no later than `now`. */
  ghost predicate CleanupsBy(ops: seq<TableOp>, now: int)
  {
    forall i :: 0 <= i < |ops| && ops[i].CleanupOp? ==> ops[i].now <= now
  }

  /** Every entry holds the expiry Logout reads from its token: what Logout alone ever writes. */
  ghost predicate Coherent(blacklist: map<string, int>, parse: Parser)
  {
    forall key :: key in blacklist ==> RevocationExpiry(parse, key) == Some(blacklist[key])
  }

  /** The token's `exp`, as Logout reads it, lies before `now`. */
  ghost predicate ExpiredAt(parse: Parser, key: string, now: int)
  {
    RevocationExpiry(parse, key).Some? && now > RevocationExpiry(parse, key).value
  }

  /** VerifyToken's answer depends on which keys the table holds, not on the expiries stored with them. */
  lemma RevocationIgnoresStoredExpiry(table1: map<string, int>, table2: map<string, int>, repo: Repo,
                                      parse: Parser, tokenString: string, now: int)
    requires table1.Keys == table2.Keys
    ensures VerifyToken(table1, repo, parse, tokenString, now) == VerifyToken(table2, repo, parse, tokenString, now)
  {
  }

  /** A token whose expiry has passed is rejected whatever the table holds. */
  lemma ExpiredNeverVerifies(blacklist: map<string, int>, repo: Repo, parse: Parser, tokenString: string, now: int)
    requires ExpiredAt(parse, TrimBearer(tokenString), now)
    ensures VerifyToken(blacklist, repo, parse, tokenString, now).Reject?
  {
  }

  /**
   * Cleanup and verification agree: an entry of a coherent table is
   * deleted at `now` exactly when its token has expired by then, and so
   * every deleted token is rejected at `now` and later.
   */
  lemma CleanupDeletesOnlyExpired(blacklist: map<string, int>, parse: Parser, repo: Repo, tokenString: string, now: int, later: int)
    requires Coherent(blacklist, parse)
    requires TrimBearer(tokenString) in blacklist
    requires now <= later
    ensures TrimBearer(tokenString) !in Cleaned(blacklist, now) <==> ExpiredAt(parse, TrimBearer(tokenString), now)
    ensures VerifyToken(Cleaned(blacklist, now), repo, parse, tokenString, later).Reject?
  {
    var key := TrimBearer(tokenString);
    assert RevocationExpiry(parse, key) == Some(blacklist[key]);
    if key !in Cleaned(blacklist, now) {
      ExpiredNeverVerifies(Cleaned(blacklist, now), repo, parse, tokenString, later);
    }
  }

  /** Logout and cleanup only ever write what Logout reads from the token. */
  lemma ApplyKeepsCoherent(blacklist: map<string, int>, parse: Parser, op: TableOp)
    requires Coherent(blacklist, parse)
    ensures Coherent(Apply(blacklist, parse, op), parse)
  {
  }

  lemma {:induction false} RunKeepsCoherent(blacklist: map<string, int>, parse: Parser, ops: seq<TableOp>)
    requires Coherent(blacklist, parse)
    ensures Coherent(Run(blacklist, parse, ops), parse)
    decreases |ops|
  {
    if ops != [] {
      ApplyKeepsCoherent(blacklist, parse, ops[0]);
      RunKeepsCoherent(Apply(blacklist, parse, ops[0]), parse, ops[1..]);
    }
  }

  lemma {:induction false} RunAppend(blacklist: map<string, int>, parse: Parser, a: seq<TableOp>, b: seq<TableOp>)
    ensures Run(blacklist, parse, a + b) == Run(Run(blacklist, parse, a), parse, b)
    decreases |a|
  {
    if a == [] {
      assert a + b == b;
    } else {
      assert (a + b)[0] == a[0];
      assert (a + b)[1..] == a[1..] + b;
      RunAppend(Apply(blacklist, parse, a[0]), parse, a[1..], b);
    }
  }

  /**
   * The invariant behind revocation: once a key is in a coherent table, it
   * stays there or has expired, through any calls whose cleanups run no
   * later than `now`.
   */
  lemma {:induction false} RunKeepsRevokedOrExpired(blacklist: map<string, int>, parse: Parser, ops: seq<TableOp>, key: string, now: int)
    requires Coherent(blacklist, parse)
    requires key in blacklist || ExpiredAt(parse, key, now)
    requires CleanupsBy(ops, now)
    ensures key in Run(blacklist, parse, ops) || ExpiredAt(parse, key, now)
    decreases |ops|
  {
    if ops != [] {
      var next := Apply(blacklist, parse, ops[0]);
      ApplyKeepsCoherent(blacklist, parse, ops[0]);
      if key in blacklist && key !in next {
        assert ops[0].CleanupOp?;
        assert RevocationExpiry(parse, key) == Some(blacklist[key]);
      }
      assert CleanupsBy(ops[1..], now) by {
        forall i | 0 <= i < |ops[1..]| && ops[1..][i].CleanupOp?
          ensures ops[1..][i].now <= now
        {
          assert ops[1..][i] == ops[i + 1];
        }
      }
      RunKeepsRevokedOrExpired(next, parse, ops[1..], key, now);
    }
  }

  /**
   * A logged-out token is never accepted again: after a successful Logout
   * of `loggedOut` and any later logouts and cleanups, VerifyToken at a
   * time no earlier than every cleanup rejects every token string that
   * strips to the same key ("X" and "Bearer X" alike).
   */
  lemma LoggedOutTokenNeverVerifies(parse: Parser, before: seq<TableOp>, loggedOut: string, after: seq<TableOp>,
                                    repo: Repo, presented: string, now: int)
    requires RevocationExpiry(parse, TrimBearer(loggedOut)).Some?
    requires TrimBearer(presented) == TrimBearer(loggedOut)
    requires CleanupsBy(after, now)
    ensures VerifyToken(Run(map[], parse, before + [LogoutOp(loggedOut)] + after), repo, parse, presented, now).Reject?
  {
    var key := TrimBearer(loggedOut);
    RunKeepsCoherent(map[], parse, before);
    var mid := Run(map[], parse, before);
    var revoked := Apply(mid, parse, LogoutOp(loggedOut));
    ApplyKeepsCoherent(mid, parse, LogoutOp(loggedOut));
    assert key in revoked;
    RunAppend(map[], parse, before, [LogoutOp(loggedOut)]);
    assert Run(mid, parse, [LogoutOp(loggedOut)]) == revoked;
    RunAppend(map[], parse, before + [LogoutOp(loggedOut)], after);
    RunKeepsRevokedOrExpired(revoked, parse, after, key, now);
    var final := Run(revoked, parse, after);
    if key !in final {
      ExpiredNeverVerifies(final, repo, parse, presented, now);
    }
  }
}

# Authentication backend of the ecommerce storefront, in Dafny

This project models the Go authentication backend of the storefront. It covers two parts:

- `AuthService` (backend/src/services/auth_service.go): registration, login, logout into a table of revoked tokens, cleanup of that table, token verification, and password reset.
- The Gin middleware (backend/middleware/auth.go): `AuthMiddleware`, which turns the Authorization header into a 401 or stored claims, and `RequireAdmin`, which turns the stored claims into a 401, a 403 or the next handler.

The foreign pieces are parameters:

- The JWT library is a `Parser` and a `Signer`. Its HS256 signing (section 3.2 of RFC 7518) is not modelled.
  - A parse reports: whether the method is HMAC, the library's own error, `Valid`, whether the claims are map claims, and the claims themselves.
  - A parse is a function of the token string alone; it does not see the clock.
  - The one property assumed of the library is `Jwt.Signs`: a signed string parses back, as HMAC, to the claims that were signed.
- bcrypt is a `Hasher`/`Matcher` pair.
- The clock is an integer `now` in Unix seconds.
- The users table is a `Users.Repo` value: rows in primary-key order, the next ID, and a flag for whether the database answers.

The revocation table is the one piece of state the service updates in place. So `AuthService.AuthService` is a class with a `blacklist: map<string, int>` field, the parse over its secret as a constant fixed by the constructor, and two methods, `Logout` and `CleanupBlacklist`. Each method's `ensures` ties the new table to a value-level function (`AfterLogout`, `Cleaned`). Module `Revocation` proves what those functions guarantee over any sequence of logouts and cleanups.

The main results:

- A token that was logged out is never accepted by `VerifyToken` again. This holds after any later logouts and cleanups, as long as the verification time is no earlier than every cleanup. It holds for "X" and "Bearer X" alike.
- Cleanup deletes an entry exactly when the token has expired. Deleting it therefore never makes a rejected token acceptable again.

A consequence of the source that the model makes explicit: `AuthMiddleware` parses with its own library and secret and never consults the revocation table. A logged-out token that is still valid passes the middleware. It is rejected only by `AuthService.VerifyToken`.

## Model

| member | source | states |
|---|---|---|
| `Bearer.TrimPrefix` | backend/src/services/auth_service.go:96 | the result is `s` with `prefix` removed when `s` starts with it, and `s` itself otherwise |
| `Bearer.TrimBearerUndoesPrefix` | backend/src/services/auth_service.go:150-151 | stripping "Bearer " + X gives X, so "Bearer X" and X name the same table key |
| `Bearer.TrimBearerRemovesOnlyOne` | backend/middleware/auth.go:30-31 | only one leading "Bearer " is removed; a string without the prefix is left unchanged |
| `Jwt.NumberClaim` | backend/src/services/auth_service.go:179-183 | a claim counts as numeric exactly when it is present and a number, and the number is returned |
| `Jwt.TextClaim` | backend/src/services/auth_service.go:240-241 | a claim counts as a string exactly when it is present and a string |
| `Users.FirstWithEmail` | backend/src/repositories/user_repository.go:21-28 | the first row in key order with that email; none exactly when no row has it |
| `Users.FindByEmail` | backend/src/repositories/user_repository.go:21-28 | a stored user with that email; an error exactly when the database is down or no row matches |
| `Users.ExistsByEmail` | backend/src/repositories/user_repository.go:30-37 | true exactly when some row has that email; an error exactly when the database is down |
| `Users.ExistsById` | backend/src/services/auth_service.go:189-197 | true exactly when some row has that ID; an error exactly when the database is down |
| `Users.Create` | backend/src/repositories/user_repository.go:17-19 | insertion succeeds exactly when the database is up and neither username nor email is taken; the user gets the next ID, is appended, and the next ID advances by one |
| `Users.UpdatePassword` | backend/src/repositories/user_repository.go:39-41 | sets the password of the rows with that ID, a missing row included, and fails only when the database is down |
| `AuthService.AuthService.constructor` | backend/src/services/auth_service.go:24-31 | a new service keeps the parse over its secret for every later call and has an empty revocation table |
| `AuthService.IsTokenBlacklisted` | backend/src/services/auth_service.go:141-147 | pure key membership in the table; that the stored expiry plays no part is `Revocation.RevocationIgnoresStoredExpiry` |
| `AuthService.AuthService.Logout` | backend/src/services/auth_service.go:94-127 | on success the stripped token is revoked until its `exp` and every other entry is kept; parse error, non-map claims and a missing or non-numeric `exp` each give their own error and leave the table unchanged |
| `AuthService.AuthService.CleanupBlacklist` | backend/src/services/auth_service.go:129-139 | deletes exactly the entries whose expiry is before `now`; survivors keep their expiry and no key is added |
| `AuthService.VerifyToken` | backend/src/services/auth_service.go:149-200 | a revoked key is rejected before any parse; acceptance holds exactly when the token is not revoked, is HMAC-signed, parses without error, is valid, has map claims and a numeric `exp` with `now <= exp`, and names an existing user; a token past `exp` gets "token has expired" |
| `AuthService.Register` | backend/src/services/auth_service.go:33-63 | "email already registered" comes exactly when the database is up and the email is taken, with no insert; with the database up, a fresh email and username and a successful hash, registration succeeds; a new user gets role "user", the hashed password, and is appended; every failure leaves the table unchanged |
| `AuthService.Login` | backend/src/services/auth_service.go:65-92 | an unknown email and a wrong password both give "invalid credentials"; a stored user with a matching password whose claims sign gets that token, and only then; the token is the signature of the user's ID, email, role and `exp` = now + 24h |
| `AuthService.GeneratePasswordResetToken` | backend/src/services/auth_service.go:202-223 | an unknown email gives "user not found"; a known email whose reset claims sign gets that token, and only then; the claims carry purpose "password_reset" and `exp` = now + 1h |
| `AuthService.ResetPassword` | backend/src/services/auth_service.go:225-262 | an invalid or failed parse and any `purpose` other than "password_reset" are refused; no failure writes the table; on success exactly the rows with the token's `user_id` get the new hash |
| `Revocation.RevocationIgnoresStoredExpiry` | backend/src/services/auth_service.go:141-147 | whether a token is revoked depends only on the table's keys, never on the stored expiries |
| `Revocation.ExpiredNeverVerifies` | backend/src/services/auth_service.go:185-187 | a token whose `exp` has passed is rejected whatever the table holds |
| `Revocation.CleanupDeletesOnlyExpired` | backend/src/services/auth_service.go:134-137 | cleanup at `now` deletes an entry exactly when its token has expired by `now`, so a deleted token is still rejected at `now` and later |
| `Revocation.ApplyKeepsCoherent` | backend/src/services/auth_service.go:118-121 | logout and cleanup keep every entry equal to the `exp` its token carries |
| `Revocation.RunKeepsCoherent` | backend/src/services/auth_service.go:118-139 | the same holds after any sequence of logouts and cleanups |
| `Revocation.RunKeepsRevokedOrExpired` | backend/src/services/auth_service.go:129-139 | a revoked key stays revoked, or has expired, through any calls whose cleanups run no later than `now` |
| `Revocation.LoggedOutTokenNeverVerifies` | backend/src/services/auth_service.go:94-156 | after a successful logout of a token and any later logouts and cleanups, the token is rejected, with or without the "Bearer " prefix |
| `Sessions.RegisteredUserCanLogIn` | backend/src/services/auth_service.go:33-92 | when bcrypt's hash matches its password, a user just registered can log in with the same email and password |
| `Sessions.LoginTokenVerifies` | backend/src/services/auth_service.go:79-84 | a login token sent as "Bearer <token>" is accepted up to its `exp`, provided it is not revoked, the library accepts it and the user is stored |
| `Sessions.LoginTokenExpires` | backend/src/services/auth_service.go:185-187 | once `now` passes issue time + 24h the same token is rejected, whatever the library reports; if the library still accepts it, the rejection is "token has expired" |
| `Sessions.LoginTokenCannotResetPassword` | backend/src/services/auth_service.go:240-244 | a login token has no `purpose`, so it never resets a password and the table is unchanged |
| `Sessions.ResetTokenResetsPassword` | backend/src/services/auth_service.go:209-215 | a reset token the library accepts sets the new hash on the user it was issued for |
| `Middleware.AuthMiddleware` | backend/middleware/auth.go:21-48 | an empty header, a parse error or an invalid token give 401 "Unauthorized" and Abort with no claims stored; otherwise the claims are stored under "user" and Next runs exactly once |
| `Middleware.RequireAdmin` | backend/middleware/auth.go:51-69 | no stored claims give 401; a non-admin role gives 403 "Forbidden"; both abort; an admin proceeds once; the context is never changed |
| `Middleware.AdminRoute` | backend/middleware/auth.go:21-69 | the handler behind both middlewares runs exactly when the header is non-empty, the stripped token parses as valid and the role is admin; a valid non-admin token gets 403 and every other refusal 401 |

## Left out

- Concurrency: the `sync.RWMutex` and the goroutine that Logout starts are left out. Cleanup is a sequential method that the caller runs with an explicit `now`; the `Revocation` lemmas cover any order of logouts and cleanups.
- JWT parsing and signing, and bcrypt: foreign libraries, abstracted as described above.
  - The library's own claim checks (its `exp`, `nbf` and `iat` validation) depend on the clock, and the model's parse does not. A parse's `failed`/`valid` flags are fixed per token string, so the model does not capture a token that the library accepts before its `exp` and refuses after it.
  - The middleware's separate library and `JWT_SECRET` are a separate `ClaimsParser`.
- Time has whole-second resolution. Claims are whole numbers rather than float64, so a fractional `exp` and the truncating float-to-integer conversions are not modelled.
  - With a sub-second clock, cleanup (line 135) can delete an entry during the second of its expiry while line 185 alone would still accept in that second. `Revocation.LoggedOutTokenNeverVerifies` relies on both sides using the same whole-second clock. In the source, the JWT library's own expiry check decides that second.
- `AuthService.VerifyToken`: in the source the library's own expiry check inside the parse (line 159) already refuses a token whose `exp` has passed, so the error comes from lines 166-167 and lines 185-187 ("token has expired") are not reached for such a token. The model keeps line 185 as written and proves only that such a token is rejected; which error the source returns then is not captured.
- `AuthService.AuthService.Logout`: for the same reason, Logout of a token whose `exp` has passed fails at lines 103-105 in the source. The model's parse does not see the clock, so it would record such a token.
- `Sessions.LoginTokenExpires`: concludes only that the expired token is rejected. "token has expired" is stated for the case where the library still accepts the token, which the source's library does not do.
- `Sessions.LoginTokenVerifies`: requires the library to accept the token (not `failed`, `valid`). The model cannot derive this from the clock, because the library's checks are abstract.
- `Users.ExistsById`: user_repository.go has no such method. The model takes it to answer whether a row has that primary key. A negative or fractional `user_id` matches no row.
- Database errors are a single `up` flag: every repository call fails together. Soft deletion (`DeletedAt`) and the column timestamps are not modelled.
- The `models` package imported by the middleware is not part of this model. `models.RoleAdmin` is taken to be "admin", and `models.Role` a string.
- The controllers (HTTP status mapping, JSON binding), routes, server setup, database configuration and the whole frontend are not part of this model. They are I/O and wiring.
- Error values are constructors of `AuthService.AuthError`. Their message texts are given in comments, and errors passed through from libraries are not distinguished further.

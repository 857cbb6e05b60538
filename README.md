# Authentication server session core, in Dafny

This project models the core of a small Go authentication server. The server keeps
users and refresh/reset sessions in Postgres. It issues RSA-signed JWT access
tokens that live fifteen minutes, and 32-hex-character refresh tokens that live
thirty days. The model covers:

- password digests: salt ‖ scrypt key, in standard base64;
- the access-token wire format and its validation pipeline, both the live RSA
  revision (`utils/authutils.go`) and the superseded HMAC revision (`utils/auth.go`);
- the session table and the SQL-string constructors of `db/db.go`;
- the middlewares of `authMiddleware.go`;
- the login, refresh, logout, password-reset and profile handlers of `apiHandlers.go`;
- the unused header parser of `authHandlers.go`;
- the route table and `VerifyTypeJSON` of `main.go`.

Module layout (one file each):

| file | module | source |
|---|---|---|
| wrappers.dfy | Wrappers | `Option`, `Result`, `byte` |
| gostrings.dfy | GoStrings | Go's `strings.Index/Split/Join/TrimSpace/TrimRight`, `strconv.Itoa/Atoi` |
| base64.dfy | Base64 | Go's `encoding/base64`: four encodings, padding, newline skipping, partial output on error, `DecodedLen` capacity |
| hex.dfy | Hex | `encoding/hex` |
| crypto.dfy | Crypto | crypto primitives and JSON codecs as parameters; UTF-8 |
| authutils.dfy | AuthUtils | `utils/authutils.go` |
| authlegacy.dfy | LegacyAuth | `utils/auth.go` |
| db.dfy | Db | `db/db.go` |
| middleware.dfy | Middleware | `authMiddleware.go` |
| handlers.dfy | Handlers | `apiHandlers.go` |
| authhandlers.dfy | LegacyHandlers | `authHandlers.go` |
| routes.dfy | Routes | `main.go` |

Modelling choices:

- **Primitives as parameters.** SHA-256, RSA PKCS#1 v1.5 sign/verify, HMAC-SHA256,
  scrypt and `crypto/rand` are fields of a `Crypto.Primitives` record. Its
  `Sound()` predicate states the only facts the proofs use:
  - verification accepts what the matching private key signed;
  - scrypt succeeds and yields the requested length.
- **JSON as parameters.** `Crypto.Json<T>` holds marshal/unmarshal. Its `Sound`
  states:
  - unmarshal inverts marshal;
  - a strict prefix of a marshalled value unmarshals to the zero value, which is
    what `json.Unmarshal` leaves in a variable after a syntax error.
- **Random bytes** are an input (`Result<Random16, string>`).
- **Time** is an integer count of seconds, passed in as `now`.
- **Go runtime panics** are explicit outcomes (`Panicked`, `IndexPanic`, `Panic`,
  `Crash`), not preconditions. Examples: an index out of range, a nil dereference,
  `Error()` on a nil error.
- **The database tables** are fields of the class `Db.Store`:
  - `users: seq<User>`;
  - `sessions: map<string, Session>`, keyed by token.

  Each store method is specified by a pure function on the tables (`Issue`,
  `Invalidate`, `DropUser`, `SetHash`, `SetLastLogin`). The lemmas reason about
  those functions.
- **Request bodies** are handed to the handlers already decoded, as
  `Result<…, string>`, so the decoding error is kept. The Authorization and
  Content-Type headers are strings.
- **Two revisions of `ValidateAccessToken`.** The function in `utils/authutils.go`
  decodes the signature and the payload with encodings other than the one that
  issued them (see Findings). `AuthUtils.ValidateAccessTokenAsWritten` is that code;
  `AuthUtils.ValidateAccessToken` decodes both with `RawURLEncoding`. The server's
  `Middleware.Env` carries a flag `asWritten` choosing which one `TokenVerify` and
  the header parser of `authHandlers.go` call. Every lemma about an issued token
  passing the middleware states its outcome under both: the intended outcome with
  the corrected validator, or with the one as written on a token it decodes
  (`AuthUtils.DecodesAsWritten`), and the base64 error with the one as written on a
  signature whose length is not a multiple of 3.
- **`auth.go`'s `VerifyPassword`** is imperative. It works on a Go slice that
  aliases its backing array (`LegacyAuth.Slice`), because that aliasing is what
  the code gets wrong.

Behaviour of the code worth noting:

- A refresh token that is presented after it expired, or after it was already used,
  is refused by `QueryToken` (`db/db.go:324-348`) rather than reported as an error.
  `RefreshAccess` then deletes every session of the user (`apiHandlers.go:190-194`)
  and answers 401 "Login Required".
- Completing a password reset deletes only the reset token
  (`apiHandlers.go:304`). The user's other sessions stay valid.
- `auth.go` and `authutils.go` declare the same identifiers in one package. The live
  revision is `authutils.go`, because the handlers set the `Exp` field, which only
  `authutils.go` declares. `auth.go` is modelled as its own module, `LegacyAuth`.

## Model

| member | source | states |
|---|---|---|
| AuthUtils.GenerateCryptoString | authserver/utils/authutils.go:25-41 | succeeds exactly when the random source does; then 32 characters that hex-decode back to the 16 random bytes; otherwise the source's error |
| AuthUtils.Hasher | authserver/utils/authutils.go:43-52 | fails only when scrypt fails; the result starts with the salt; with sound primitives it is salt followed by a 32-byte key |
| AuthUtils.DecodeBuffer | authserver/utils/authutils.go:56-60 | the decoded bytes sit at the front of a buffer of `DecodedLen` capacity, whose length is exactly that capacity when the data fits |
| AuthUtils.SaltCapacity | authserver/utils/authutils.go:56-60 | `byteHash[:16]` is within capacity exactly when the stored text has at least 24 characters |
| AuthUtils.VerifyPassword | authserver/utils/authutils.go:54-82 | a decode error is an error; text shorter than 24 characters panics at `[:16]`; otherwise a hasher failure is returned as `Errored` with its text, and the verdict is `Checked(re-encoded digest == stored text)`, with the salt read from the first 16 bytes of the decoding buffer; `Checked(true)` only when re-hashing with some salt reproduces the stored text |
| AuthUtils.PasswordHashLayout | authserver/utils/authutils.go:84-88 | a stored digest is 64 characters of standard base64 for 48 bytes: the 16-byte salt, then the scrypt key of the password |
| AuthUtils.VerifyGetPasswordHash | authserver/utils/authutils.go:54-88 | round trip: a password verifies against the digest made from it |
| AuthUtils.UnsaltedHashNeverVerifies | authserver/utils/authutils.go:84-88 | when the random source failed, the stored digest (a bare key) never verifies any password |
| AuthUtils.DigestTextLengths | authserver/utils/authutils.go:84-88 | 48 bytes take 64 base64 characters and 44 characters give 33 bytes of capacity |
| AuthUtils.Base64Encode | authserver/utils/authutils.go:106-108 | standard padding stripped from URL base64 is unpadded URL base64: no '=', no '.', only URL-alphabet symbols |
| AuthUtils.SignedToken | authserver/utils/authutils.go:111-128 | the token is header text, '.', payload text, '.', signature text, and splits on '.' into exactly those three |
| AuthUtils.GenerateAccessToken | authserver/utils/authutils.go:111-128 | the token is the header and the marshalled claims in unpadded URL base64, then the RSA PKCS#1 v1.5 signature over SHA-256 of "h.p" |
| AuthUtils.Validate | authserver/utils/authutils.go:133-181 | fewer than three segments panics; an undecodable signature is "illegal base64 data", a signature that does not verify a verification error, a wrong `alg` "invalid algorithm", `exp < now` "expired", in that order; valid exactly when signature, algorithm and `now <= exp` all hold; then the payload's claims |
| AuthUtils.ExtraSegmentsIgnored | authserver/utils/authutils.go:142-145 | segments after the third do not change the verdict |
| AuthUtils.ValidateGenerated | authserver/utils/authutils.go:111-181 | an issued token validates to its own claims until `exp`, and to "expired" after it |
| AuthUtils.AsWrittenRejectsUnpaddedSignature | authserver/utils/authutils.go:153-157 | as written, a signature whose length is not a multiple of 3 (every 2048-bit RSA signature) fails to decode |
| AuthUtils.AsWrittenPassesChecks | authserver/utils/authutils.go:153-169 | as written, an issued token whose signature length is a multiple of 3 passes the signature and algorithm checks |
| AuthUtils.AsWrittenExpiresUrlPayload | authserver/utils/authutils.go:173-177 | as written, a payload whose URL text holds '-' or '_' decodes short, unmarshals to zero claims and is refused as "expired" |
| AuthUtils.AsWrittenAgreesOtherwise | authserver/utils/authutils.go:133-181 | without those characters the as-written pipeline gives the intended verdict |
| AuthUtils.AsWrittenReadsZeroClaims | authserver/utils/authutils.go:173-174 | as written, a payload whose URL text holds '-' or '_' is read as the zero claims |
| AuthUtils.ValidateIssued | authserver/utils/authutils.go:111-181 | on every issued token, each revision of the validator gives `IssuedVerdict`: the corrected one the claims until `exp`, then "expired"; the one as written "illegal base64 data" for a signature whose length is not a multiple of 3, and otherwise the verdict on the zero claims when the payload text holds URL symbols |
| AuthUtils.UrlTextCutShort | authserver/utils/authutils.go:173 | concrete instance: the bytes "ab?" encode to "YWI_", which RawStd decoding rejects with no output |
| Base64.DecodeEncode | authserver/utils/authutils.go:56 | each encoding decodes its own output back to the input |
| Base64.StdDecodeOfUrl | authserver/utils/authutils.go:173 | RawStd decoding of RawURL text succeeds exactly when the text has no '-' and no '_'; otherwise it yields a strict prefix |
| Base64.PaddedDecodeOfRaw | authserver/utils/authutils.go:153 | padded decoding of unpadded text succeeds exactly when the data length is a multiple of 3 |
| Base64.TrimmedIsRaw | authserver/utils/authutils.go:106-108 | trimming '=' from padded output gives the unpadded encoding |
| Base64.DecodedFits | authserver/utils/authutils.go:56 | decoded data never exceeds `DecodedLen` of the text |
| Hex.DecodeEncode | authserver/utils/authutils.go:35-41 | hex encoding round-trips |
| LegacyAuth.Append | authserver/utils/auth.go:46 | Go's `append`: in place in the same array when the capacity suffices, otherwise into a fresh array, leaving the old one unchanged |
| LegacyAuth.BytesEqual | authserver/utils/auth.go:67-72 | the byte loop answers true exactly when the two slices hold the same bytes |
| LegacyAuth.DecodeIntoBuffer | authserver/utils/auth.go:51 | the decoded digest in a fresh buffer of `DecodedLen` capacity |
| LegacyAuth.BufferSalt | authserver/utils/auth.go:55 | the salt is the first 16 bytes of the buffer |
| LegacyAuth.VerifyPasswordAsWritten | authserver/utils/auth.go:50-74 | as written: decode error is an error, short text panics, and otherwise the verdict is `Checked(len == 16 + key length)`, whatever the password; with sound primitives, `Checked(len == 48)` |
| LegacyAuth.VerifyPassword | authserver/utils/auth.go:50-74 | corrected (salt copied): `Checked(true)` exactly when the stored bytes are the salt followed by the key derived from the password |
| LegacyAuth.StoredDigestDecides | authserver/utils/auth.go:50-80 | for a stored digest, an attempt is accepted by the corrected check exactly when its derived key equals the password's |
| LegacyAuth.GenerateAccessToken | authserver/utils/auth.go:98-109 | "h.p." followed by the unpadded URL base64 of HMAC-SHA256(secret, "h.p") |
| LegacyAuth.Validate | authserver/utils/auth.go:111-137 | fewer than three segments panics; a MAC mismatch is "Signature does not match"; a matching MAC with a wrong `alg` is "Invalid Algorithm"; there is no expiry check; valid claims are the decoded payload |
| LegacyAuth.ValidateGenerated | authserver/utils/auth.go:98-137 | corrected decoding: every issued token validates to its own claims, forever |
| LegacyAuth.AsWrittenRejectsUrlTag | authserver/utils/auth.go:116-124 | as written, a tag whose URL text holds '-' or '_' is refused with "Signature does not match" |
| LegacyAuth.AsWrittenZeroesUrlPayload | authserver/utils/auth.go:133-136 | as written, a payload whose URL text holds '-' or '_' validates to zero claims |
| Db.QueryConstructor | authserver/db/db.go:103-105 | the columns, the table and the selector read back at their offsets in "SELECT c FROM t WHERE s;" |
| Db.UpdateConstructor | authserver/db/db.go:107-109 | the table, the SET list and the selector read back at their offsets in "UPDATE t SET v WHERE s" |
| Db.DeleteConstructor | authserver/db/db.go:111-113 | the table and the selector read back at their offsets in "DELETE FROM t WHERE s;" |
| Db.FragmentPlaceholder | authserver/db/db.go:243-248 | the placeholder in "key = $n" reads back as n |
| Db.UpdateUserProfile | authserver/db/db.go:237-256 | the loop yields args `[id] ++ values in key order` and the SET list "k = $2, k' = $3, …" joined by ", ", selecting "id = $1" |
| Db.WithUsername | authserver/db/db.go:183-193 | the rows with a username are exactly those in the table with that name |
| Db.ExactlyOne | authserver/db/db.go:183-193 | `pgx.CollectExactlyOneRow`: no row is "no rows in result set", one row is that row, more than one is an error |
| Db.SelectUserAuth | authserver/db/db.go:183-193 | success exactly when one row has the username, and then it is that row |
| Db.GetUserId | authserver/db/db.go:199-208 | the id of the user with that username, 0 when the lookup fails |
| Db.GetUserIdWithEmail | authserver/db/db.go:210-219 | the id of the user with that email, 0 when there is not exactly one |
| Db.SetHash | authserver/db/db.go:258-266 | only rows with the id get the new digest; the others are unchanged |
| Db.HashKeepsLookup | authserver/db/db.go:258-266 | a digest change keeps every username lookup, up to the digest |
| Db.SetLastLogin | authserver/db/db.go:268-277 | only rows with the id get the new login time |
| Db.LoginTimeKeepsLookup | authserver/db/db.go:268-277 | recording a login keeps every username lookup, up to the login time |
| Db.Lookup | authserver/db/db.go:325-331 | the session row of a token, exactly when it is in the table |
| Db.QueryDecision | authserver/db/db.go:315-348 | a missing row is "no rows in result set"; authorized exactly when the row is the user's, unexpired, and either a reset row (reset) or still valid (refresh) |
| Db.Issue | authserver/db/db.go:292-306 | adds the token for the user with a 5-minute (reset) or 30-day (refresh) expiry, valid; other rows unchanged |
| Db.Invalidate | authserver/db/db.go:351-359 | only that row's `valid` becomes false |
| Db.DropUser | authserver/db/db.go:364-372 | exactly the rows of other users remain |
| Db.IssuedTokenRedeems | authserver/db/db.go:292-348 | a freshly issued token is authorized for its user and purpose until it expires |
| Db.InvalidatedNeverRefreshes | authserver/db/db.go:324-359 | an invalidated token never authorizes a refresh |
| Db.DroppedUserHasNoSession | authserver/db/db.go:324-372 | after dropping a user, none of their tokens authorizes anything |
| Db.Store.constructor | authserver/db/db.go:29-45 | a store over the given tables |
| Db.Store.NewUserSession | authserver/db/db.go:292-306 | an existing token is a unique-key error with nothing changed; otherwise the sessions become `Issue(...)`; users unchanged |
| Db.Store.InvalidateSession | authserver/db/db.go:351-359 | sessions become `Invalidate(old, token)`; users unchanged |
| Db.Store.InvalidateAllSessions | authserver/db/db.go:364-372 | sessions become `DropUser(old, id)`; users unchanged |
| Db.Store.DeleteSession | authserver/db/db.go:375-382 | only that token is removed |
| Db.Store.NewUserHashById | authserver/db/db.go:258-266 | users become `SetHash(old, id, GetPasswordHash(password))`; sessions unchanged |
| Db.Store.UpdateUserLoginTime | authserver/db/db.go:268-277 | users become `SetLastLogin(old, id, now)`; sessions unchanged |
| Middleware.HeaderGet | authserver/authMiddleware.go:33 | the first header value, "" when absent |
| Middleware.TokenVerify | authserver/authMiddleware.go:32-49 | "header missing" exactly for an empty header; "invalid" exactly when the header is not two space-separated parts starting "Bearer"; otherwise the server's validation's claims or error unchanged |
| Middleware.BearerCarries | authserver/authMiddleware.go:39-44 | "Bearer " plus a token without spaces is well formed and carries that token |
| Middleware.DoubleSpaceInvalid | authserver/authMiddleware.go:39-42 | "Bearer  t" with two spaces is "invalid" |
| Middleware.IssuedTokenVerifies | authserver/authMiddleware.go:32-49 | "Bearer " plus an issued token verifies to its claims until `exp`, then fails "expired" with zero claims, with the corrected validator or with the one as written on a token it decodes; as written, a signature whose length is not a multiple of 3 fails "illegal base64 data", and a payload with URL symbols verifies as the zero claims until time 0 and is "expired" after |
| Middleware.UnpaddedSignatureRefused | authserver/authMiddleware.go:13-30 | with the validator as written, `TokenRequired` answers an issued token whose signature length is not a multiple of 3 with 500 "illegal base64 data", whatever its expiry |
| Middleware.ExpiredTokenRefused | authserver/authMiddleware.go:13-30 | an expired issued token is refused by `TokenRequired` with 401 "expired" when the validator decodes it, and with 500 "illegal base64 data" when the validator as written cannot decode its signature |
| Middleware.TokenRequired | authserver/authMiddleware.go:13-30 | passes exactly verified claims; "header missing"/"invalid" are 400, "expired" 401, other errors 500 with their text |
| Middleware.TokenRequiredStatus | authserver/authMiddleware.go:13-30 | an expired token is 401 "expired"; a bad signature is 500 "crypto/rsa: verification error" |
| Middleware.StaffRequired | authserver/authMiddleware.go:54-63 | passes exactly staff claims, otherwise 403 "Access Forbidden" |
| Middleware.SuperUserVerify | authserver/authMiddleware.go:67-77 | a failed lookup panics (nil record); passes exactly when the stored record is an active superuser, otherwise 403 "Not Authorized" |
| Middleware.ValidateUserCreds | authserver/authMiddleware.go:80-118 | 422 on a bad body; 401 for an unknown user; 409 for an empty digest; 500 "Credential Validation Error" on a verify error; panic on a short digest; 401 "Invalid Credentials" on a mismatch; passes the stored record exactly when the password verifies |
| Middleware.CredentialsOfStoredDigest | authserver/authMiddleware.go:80-118 | a user logs in with the password their stored digest was made from |
| Middleware.CredsIgnoreActiveFlag | authserver/authMiddleware.go:93-116 | clearing every active flag changes no verdict of `validateUserCreds` |
| Handlers.NewTokenText | authserver/apiHandlers.go:359 | the refresh/reset token is 32 characters, or "" when the random source failed |
| Handlers.AccessClaims | authserver/apiHandlers.go:367-372 | the claims carry the user's id, name and staff flag and expire 15 minutes after `now` |
| Handlers.AccessTokenLifetime | authserver/apiHandlers.go:367-377 | an issued access token verifies for 15 minutes and is "expired" afterwards, with either validator on a token it decodes; as written, a signature whose length is not a multiple of 3 never verifies |
| Handlers.NewAccess | authserver/apiHandlers.go:354-389 | inactive: 403 "Account Deactivated", nothing changes; token clash: 500 "New Session Error", nothing changes; otherwise one refresh session is added, the login time recorded, and the token pair returned |
| Handlers.LoginUser | authserver/apiHandlers.go:133-136 | as `NewAccess` for the record the credentials check passed on |
| Handlers.ExpiredPresentsZeroClaims | authserver/apiHandlers.go:161-171 | with an expired access token the handler goes on with zero claims (username "", id 0) |
| Handlers.RefreshAccess | authserver/apiHandlers.go:160-203 | errors other than "expired" are 401; then the user lookup (500), then the body (422); a missing token is 401 with nothing changed; a refused one deletes all the user's sessions, 401 "Login Required"; an authorized one is invalidated and a new pair issued |
| Handlers.ReplayAfterRotation | authserver/tests/test.py:78-103 | rotate, then replay the old token: the replay is 401 "Login Required", and the new token is then refused too (no such row), with no session of the user left |
| Handlers.LogoutUser | authserver/apiHandlers.go:140-158 | 422 on a bad body; otherwise exactly the presented token is deleted, 204 |
| Handlers.CreatePasswordToken | authserver/apiHandlers.go:254-277 | a reset session for the user with that email (id 0 when none); 500 on a token clash; the reset token is returned |
| Handlers.ChangePassword | authserver/apiHandlers.go:279-307 | 400 on a bad body; 403 "Invalid Token or Username" unless the token is the named user's live reset token; otherwise the digest is replaced, only the reset token deleted, 202 |
| Handlers.NewPasswordLogsIn | authserver/apiHandlers.go:279-307 | after the change, the user's credentials check passes with the new password |
| Handlers.ValidateMap | authserver/apiHandlers.go:393-402 | true exactly when every key names a field of `UserMod` |
| Handlers.GetUserInfoAsWritten | authserver/apiHandlers.go:90-112 | as written: an unparsable id is 404; self or staff read the caller's private record; others the requested public record |
| Handlers.GetUserInfo | authserver/apiHandlers.go:90-112 | corrected: self or staff read the requested private record |
| Handlers.StaffGetsOwnRecord | authserver/apiHandlers.go:101-103 | staff asking for another id get their own record as written, and the requested one once corrected |
| Handlers.ModifyUserAsWritten | authserver/apiHandlers.go:214-252 | as written: 404, 422, 403, 400 in that order; the UPDATE targets the caller's id; a failed UPDATE panics |
| Handlers.ModifyUser | authserver/apiHandlers.go:214-252 | corrected: the UPDATE targets the requested id with that id as `$1`; a failed UPDATE is 500 with the database's error; never panics |
| Handlers.EmptyUpdateQuery | authserver/apiHandlers.go:241-246 | an empty object passes `validateMap` and yields "UPDATE users SET  WHERE id = $1" |
| LegacyHandlers.HeaderPieces | authserver/authHandlers.go:20 | the trimmed value split on ": " |
| LegacyHandlers.TokenVerifyLegacy | authserver/authHandlers.go:16-33 | no header panics; 401 "Invalid Authorization Method" exactly when the first piece is not "Bearer"; no second piece panics; otherwise the validation's claims are passed on, its error is 401 with its text, and its panic is a panic |
| LegacyHandlers.StandardHeaderRefused | authserver/authHandlers.go:20-24 | every standard "Bearer t" header is refused |
| LegacyHandlers.BareBearerPanics | authserver/authHandlers.go:20-25 | "Bearer" alone panics at index 1 |
| LegacyHandlers.ColonHeaderAccepted | authserver/authHandlers.go:16-33 | "Bearer: t" with an issued token passes its claims until `exp`, then 401 "expired", with either validator on a token it decodes; as written, a signature whose length is not a multiple of 3 gets 401 "illegal base64 data" |
| LegacyHandlers.Template | authserver/authHandlers.go:10-14 | the wrapped handler is never called |
| Routes.Find | authserver/main.go:41-88 | the route registered for a method and pattern, or none when no entry has them |
| Routes.CheckContentType | authserver/main.go:90-105 | passes exactly "application/json"; blank is 415 "Content-Type Header is blank"; anything else 415 "Unsupported Media Type" |
| Routes.CharsetRefused | authserver/main.go:98-102 | "application/json; charset=utf-8" is refused |
| Routes.RunGuards | authserver/main.go:41-88 | over the outcomes each middleware gives the request (`Verdicts`), the handler is reached exactly when every guard of the chain passes, with the token's claims and the credentials' record in the context when those guards ran |
| Routes.Dispatch | authserver/main.go:41-88 | a registered route runs its guard chain and names its handler |
| Routes.ExpiredRefreshBlocked | authserver/main.go:78-80 | POST /session/refresh with an expired issued token stops at `TokenRequired` with 401 "expired", with either validator on a token it decodes; as written, a signature whose length is not a multiple of 3 stops it with 500 "illegal base64 data" |
| Routes.RefreshBlockedAtToken | authserver/main.go:78-80 | a JSON refresh request whose token `TokenRequired` refuses is answered with that refusal |
| Routes.PasswordRoutesOpen | authserver/main.go:54-58 | the reset routes need only a JSON Content-Type, no token |
| Routes.DeleteAccountChain | authserver/main.go:59-68 | deleting an account needs a valid token, JSON and matching credentials |
| Routes.DeleteAccountTokenFirst | authserver/main.go:59-68 | a refused token is answered by `TokenRequired` before anything else |
| Routes.LoginChain | authserver/main.go:71-76 | login needs JSON and valid credentials, no token, and hands on the stored record |

## Left out

- Key loading, PEM/X.509 parsing, the environment, the Postgres connection and SQL
  execution: the tables are in memory.
- Database failures other than a duplicate token are never produced. So these 500
  branches are not modelled: `RefreshAccess`'s `InvalidateSession`, `logoutUser`'s
  `DeleteSession`, `newAccess`'s "Update Time Failed", and `changePassword`'s
  `NewUserHashById`.
- RSA signing errors in `GenerateAccessToken`: signing with the loaded key is taken
  to succeed.
- Country lookup, `index`, `createUser`/`InsertUser`, `deleteUserAccount`/`DeleteUser`,
  `DeleteAllUsers`, `SelectPrivateUserById`/`SelectPublicUser`, `checkJwt` and
  `getPublicKey`. These are CRUD and I/O plumbing. They appear only as route-table
  endpoints.
- HTTP writing, logging, CORS and `MaxBytesReader`. JSON decoding of request bodies is
  an input.
- Concurrency: `QueryToken` followed by `InvalidateSession` is modelled as sequential,
  and nothing is claimed about two concurrent redemptions.
- Go's growth policy for `append` beyond capacity: only "a fresh array" is modelled.
- `auth.go`'s `GenerateCryptoString`, `hasher` and `GetPasswordHash` are identical to
  the `authutils.go` ones. They are modelled once, by the `AuthUtils` members.
- The position in `CorruptInputError` messages: base64 errors carry a fixed text.
- Handlers.ModifyUser: the 404 body is Go's `strconv.Atoi` error text, which quotes
  the input. The contract states only the status.
- Handlers.CreatePasswordToken: the 500 body is the driver's unique-violation text.
  The contract states only the status.
- Db.UpdateUserProfile: Go's map iteration order is random. The order is an input
  that enumerates the keys.
- AccessTokenLifetime: with the validator as written, a token whose payload text holds
  '-' or '_' is read as the zero claims; that case is stated once, in
  `Middleware.IssuedTokenVerifies`, and not restated here.
- ColonHeaderAccepted: the same as-written payload case is left to
  `Middleware.IssuedTokenVerifies` and `AuthUtils.ValidateIssued`.
- ExpiredRefreshBlocked: the same as-written payload case is left to
  `Middleware.IssuedTokenVerifies` and `AuthUtils.ValidateIssued`.
- Routes.Find: patterns are names, not strings matched against paths. The
  `{user_id}` parameter reaches the handlers as `userParam`.

## Findings

| source | as written | input that shows it | evidently intended | confidence | as-written member | corrected member |
|---|---|---|---|---|---|---|
| authserver/utils/authutils.go:153 | the signature is decoded with padded `URLEncoding`, but `base64Encode` strips the padding | any signature whose length is not a multiple of 3, e.g. a 256-byte RSA-2048 signature: decoding fails with "illegal base64 data" | decode with `RawURLEncoding`, so that every issued token validates | high, not executed | AuthUtils.AsWrittenRejectsUnpaddedSignature | AuthUtils.ValidateGenerated |
| authserver/utils/authutils.go:173 | the payload is decoded with `RawStdEncoding`, but it was encoded with the URL alphabet, and the decode error is ignored | claims whose marshalled bytes encode with '-' or '_' (the bytes "ab?" give "YWI_"): the payload decodes short, unmarshals to zero claims and is refused as "expired" | decode with `RawURLEncoding` | high, not executed | AuthUtils.AsWrittenExpiresUrlPayload | AuthUtils.ValidateGenerated |
| authserver/utils/auth.go:55-72 | `salt := byteHash[:16]` keeps the buffer's capacity of 48, so `append` in `hasher` writes the new key over the stored one, and the loop compares the buffer with itself | any stored 48-byte digest and any wrong password: the result is (true, nil) | copy the salt, so a password is accepted only when its key matches | high, not executed (superseded revision) | LegacyAuth.VerifyPasswordAsWritten | LegacyAuth.VerifyPassword |
| authserver/utils/auth.go:116 | the MAC is decoded with `RawStdEncoding` although it was issued in URL base64 | a tag whose URL text holds '-' or '_': the result is "Signature does not match" | decode with `RawURLEncoding` | high, not executed (superseded revision) | LegacyAuth.AsWrittenRejectsUrlTag | LegacyAuth.ValidateGenerated |
| authserver/apiHandlers.go:102, 246 | the private read and the profile update use the caller's id, not the requested one | a staff member with id 1 asking for user 2: they get their own record, and a PATCH updates their own row | use `userRequested` | medium, not executed | Handlers.StaffGetsOwnRecord | Handlers.GetUserInfo |
| authserver/apiHandlers.go:247-249 | a failed UPDATE calls `err.Error()` on the body decoder's error, which is nil at that point | an empty JSON object `{}` (its SET list is empty, so the UPDATE fails): nil dereference | report `err2` with 500 | high, not executed | Handlers.ModifyUserAsWritten | Handlers.ModifyUser |

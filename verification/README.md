# Credential and session state machine of the trade-symphony core API

This project models, in Dafny, the part of the Go API that manages
credentials and sessions: the password policy and salted-hash codec, user
registration, login, session verification with client binding and sliding
renewal, the password-reset request/confirm flow, and the per-IP
one-request-per-second gate placed in front of those five routes.

Every handler is a pure transition `(store, inputs, now) -> Step(outcome, store')`.
The store holds the users table (a sequence of rows in primary-key order, so
gorm's `First` is "the first matching row"), the sessions keyed by token and
the reset records keyed by ID. Deletion is gorm's soft delete. A deleted
row leaves the live map, because `First` never returns it. Its key is kept
in a set of deleted keys, because the row stays in the table: inserting a
session or reset record under that key again violates the primary key, and
the handler answers 500. Time is an integer number of nanoseconds,
and each handler takes one clock reading (`now`). Strings are sequences of
Unicode scalar values, and Go's `len` is modelled exactly as the UTF-8 byte
length (`PasswordPolicy.ByteLen`). scrypt and SHA-256 are abstract functions
of fixed output length (`PasswordCodec.Kdf`, `Tokens.Sha256`). The output of
the random source is an input: `None` when the source failed, otherwise the
bytes (salt, session-token entropy) or the encoded reset token.

Modules, one per component:

- `Hex`: Go's `encoding/hex`. The encoder writes lower case. The decoder
  accepts either case and rejects odd lengths and non-digits.
- `PasswordPolicy`: `validatePassword`.
- `PasswordCodec`: `hashPassword` and `verifyPassword`.
- `Tokens`: `generateSessionToken`.
- `Store`: the rows, the `First` lookup and the store's integrity invariant `Valid`.
- `Auth`: `Register`, `Login` and `VerifySession`.
- `PasswordReset`: `RequestPasswordReset` and `ConfirmPasswordReset`.
- `RateLimit`: `NewRateLimiter` and the read/overwrite/decide step of `RateLimit`.
- `Lifecycle`: properties of sequences of these operations.

Behaviour of the code that the model keeps:

- Sessions and reset records expire only when `now` is strictly after the
  stored instant. An instant equal to the expiry is still live.
- Login reports "Invalid Username" and "Invalid Password" separately. A
  reset request for an unknown user reports "Invalid Username".
- The salt is 32 bytes. The stored hash is compared with ordinary string
  equality.

## Model

| member | source | states |
|---|---|---|
| Hex.Encode | internal/handlers/auth.go:57 | the encoding has two characters per byte, all lower-case hex digits |
| Hex.Decode | internal/handlers/auth.go:61-62 | decoding succeeds exactly when the length is even and every character is a hex digit of either case, and then yields half as many bytes |
| Hex.DecodeEncode | internal/handlers/auth.go:57-61 | decoding inverts encoding for every byte string |
| Hex.EncodeDecode | internal/handlers/auth.go:57-61 | re-encoding a decoded string gives the original with its digits lower-cased |
| Hex.EncodeAppend | internal/handlers/auth.go:57 | encoding salt ++ key is the salt's encoding followed by the key's |
| PasswordPolicy.ByteLen | internal/handlers/auth.go:35 | Go's byte length is at least the character count, and equals it exactly for ASCII strings |
| PasswordPolicy.ValidPassword | internal/handlers/auth.go:34-44 | the policy used by registration and reset: at least 8 bytes, an A-Z, an a-z and a special character; so a valid password has at least three characters, and an ASCII string under 8 characters is never valid |
| PasswordPolicy.CheckPassword | internal/handlers/auth.go:34-44 | a single scan accepts exactly the passwords with at least 8 bytes, an A-Z, an a-z and one of the 30 special characters of the pattern (the vertical bar, backslash and brackets among them; not the backtick or apostrophe) |
| PasswordPolicy.LettersAndDigitsRejected | internal/handlers/auth.go:41-43 | "Abc12345" fails: digits do not replace the special character |
| PasswordPolicy.AllLowerRejected | internal/handlers/auth.go:39-43 | "abcdefgh" fails |
| PasswordPolicy.ShortRejected | internal/handlers/auth.go:35-37 | "Ab1!" fails on length |
| PasswordPolicy.MixedAccepted | internal/handlers/auth.go:34-44 | "Abc1234!" passes |
| PasswordPolicy.MultiByteLengthCounts | internal/handlers/auth.go:35 | a 7-character password with one 2-byte character meets the 8-byte minimum |
| PasswordCodec.HashPassword | internal/handlers/auth.go:46-58 | fails exactly when the random source fails; otherwise 128 lower-case hex characters, the first 64 encoding the salt and the rest the KDF output |
| PasswordCodec.VerifyPassword | internal/handlers/auth.go:60-75 | only a 128-character hex string can verify; anything else is rejected |
| PasswordCodec.MalformedNeverVerifies | internal/handlers/auth.go:61-64 | a stored value of the wrong length or with a non-hex character is rejected whatever function stands for scrypt |
| PasswordCodec.VerifyHashIff | internal/handlers/auth.go:52-74 | the hash of p under salt s verifies q exactly when KDF(q, s) = KDF(p, s) |
| PasswordCodec.VerifyOwnHash | internal/handlers/auth.go:52-74 | every password verifies against its own fresh hash |
| PasswordCodec.DistinctSaltsDistinctHashes | internal/handlers/auth.go:47-57 | the same password hashed under two different salts gives two different stored values |
| PasswordCodec.HashIsNotPlaintext | internal/handlers/auth.go:126-136 | the stored hash of a policy-valid password is never the password itself |
| Tokens.SessionToken | internal/handlers/auth.go:77-85 | fails exactly when the random source fails; otherwise 64 lower-case hex characters that decode to the SHA-256 digest of the random bytes |
| Store.EmptyDb | internal/config/database.go:28 | a freshly migrated store has no rows and no deleted keys, and satisfies the integrity invariant |
| Store.Valid | internal/models/user.go:10-12 | the constraints the handlers keep. A key, a username and an email each name at most one user row, and every user key is below the next key. Each session is filed under its own token, the primary key of internal/models/session.go:10. Each reset record's ID equals its token, as internal/handlers/password_reset.go:63-65 sets it. Each user has at most one live reset record. No live session or reset key is also a soft-deleted one |
| Store.DeleteSession | internal/handlers/auth.go:215-222 | only the matched session leaves the live map and its key stays taken for later inserts; the other sessions, the users and the reset records are untouched |
| Store.DeleteResets | internal/handlers/password_reset.go:52 | exactly the given records leave the live map and their keys join the deleted keys; the other reset records, the users and the sessions are untouched |
| Store.UserByUsername | internal/handlers/auth.go:102 | returns a row carrying the username, or nothing exactly when no row does |
| Store.UserByEmail | internal/handlers/auth.go:108 | returns a row carrying the email, or nothing exactly when no row does |
| Store.UserById | internal/handlers/password_reset.go:128 | returns the row with the key, or nothing exactly when no row has it |
| Store.FirstMatch | internal/handlers/auth.go:102 | the lookup returns the lowest-keyed matching row, or nothing exactly when no row matches |
| Store.UsernameNamesOneRow | internal/models/user.go:12 | in a valid store a username identifies a single row |
| Store.IdNamesOneRow | internal/models/user.go:10 | in a valid store a primary key identifies a single row |
| Store.ResetTokenIsKey | internal/handlers/password_reset.go:62-66 | in a valid store a reset record carries a token exactly when it is filed under it, so a lookup by token column is a lookup by key |
| Auth.UsernameFits | internal/handlers/auth.go:95 | the username rule counts bytes: a fitting username has 2 to 16 characters, and for ASCII exactly 6 to 16 |
| Auth.Register | internal/handlers/auth.go:94-144 | checks username byte length in [6,16], then username taken, email taken, policy and confirmation, reporting the first failure and leaving the store unchanged; on success appends exactly one user with the next key whose stored password is exactly the hash of the password under the drawn salt, verifies, and is not the plaintext; sessions and reset records never change |
| Auth.RegisterPreservesValid | internal/models/user.go:10-12 | registration keeps keys increasing and usernames and emails unique |
| Auth.Login | internal/handlers/auth.go:154-193 | an unknown username and a wrong password are distinct failures and change nothing; with the right password, a failed random read or a token equal to a live or deleted session key is a 500 with no change, and otherwise login succeeds, adding exactly one session for that user, expiring at now + 6h, bound to the request's User-Agent and IP |
| Auth.LoginPreservesValid | internal/models/session.go:10 | login keeps every session filed under its own token |
| Auth.VerifySession | internal/handlers/auth.go:203-242 | unknown token: no change; binding mismatch, checked first: session deleted, conflict; now strictly after expiry: session deleted; less than 3h left: only the expiry changes, to now + 6h, later than before; otherwise no change; after a successful verification the session has at least 3h left |
| Auth.VerifySessionPreservesValid | internal/models/session.go:10 | verification keeps the store valid |
| PasswordReset.ResetKeysOf | internal/handlers/password_reset.go:52 | selects exactly the live records of the given user |
| PasswordReset.RequestPasswordReset | internal/handlers/password_reset.go:41-78 | an unknown username changes nothing; otherwise all of the user's records are gone, other users' records are kept exactly, and on success the only new record has ID and token equal to the fresh token, the user's ID and expiry now + 1h; the insert fails exactly when the token is a live or deleted reset key, and a failed generation or insert leaves the user with no record |
| PasswordReset.RequestPreservesValid | internal/handlers/password_reset.go:52-67 | a request keeps at most one reset record per user |
| PasswordReset.ConfirmPasswordReset | internal/handlers/password_reset.go:88-142 | unknown token: no change; strictly past expiry: record deleted, users unchanged; weak or mismatched password: nothing changes, so the token stays usable; success: exactly the owner's hash is replaced by a hash the new password verifies, the record is consumed, sessions untouched |
| PasswordReset.ConfirmPreservesValid | internal/handlers/password_reset.go:120-140 | a confirmation keeps the store valid |
| RateLimit.NewRateLimiter | internal/middleware/ratelimit.go:16-20 | a new limiter has no entries |
| RateLimit.Admit | internal/middleware/ratelimit.go:26-32 | refused exactly when the key has an entry less than 1s old; the key's entry becomes now whatever the verdict; other keys keep their entries |
| RateLimit.Run | internal/middleware/ratelimit.go:22-43 | the entries after a run are the earlier ones plus every key called: entries are never removed |
| RateLimit.FirstCallAllowed | internal/middleware/ratelimit.go:27-32 | the first call for a key with no entry is allowed |
| RateLimit.OneSecondGapAllowed | internal/middleware/ratelimit.go:32 | a call exactly one second after the previous one is allowed |
| RateLimit.HammeringIsRefused | internal/middleware/ratelimit.go:29-32 | a client whose calls are always less than 1s apart is refused on every call after the first |
| RateLimit.RunPrefix | internal/middleware/ratelimit.go:26-32 | the verdict on a call is the single-call verdict on the state the earlier calls left |
| RateLimit.FreshKeyAllowedAmidTraffic | internal/middleware/ratelimit.go:24-32 | other keys' traffic never throttles a key's first call |
| Lifecycle.RegisterThenLogin | internal/handlers/auth.go:127-193 | a user who has just registered can log in with the same password |
| Lifecycle.SessionTimeline | internal/handlers/auth.go:180-242 | verified from the same client d after login: live for d <= 3h, renewed to now + 6h for 3h < d <= 6h, expired and deleted for d > 6h |
| Lifecycle.RenewedThenActive | internal/handlers/auth.go:227-242 | right after a renewal, verification writes nothing |
| Lifecycle.DriftRevokes | internal/handlers/auth.go:213-218 | after a binding mismatch even the original client gets "Invalid token" |
| Lifecycle.RevokedTokenNeverReissued | internal/handlers/auth.go:185-222 | after a session is deleted for a binding mismatch or expiry, no later login is handed its token |
| Lifecycle.BindingBeforeExpiry | internal/handlers/auth.go:213-225 | an expired session presented from another client reports a conflict, not expiry |
| Lifecycle.SecondRequestRevokesFirst | internal/handlers/password_reset.go:52-67 | a second reset request makes the first token invalid, whatever the second token is, even the same one |
| Lifecycle.StaleTokenRefused | internal/handlers/password_reset.go:66-104 | a token confirmed more than an hour after issue is refused and deleted, and no password changes |
| Lifecycle.FailedAttemptKeepsToken | internal/handlers/password_reset.go:106-142 | after a refusal for a weak or mismatched password the same token still completes a valid reset before it expires |
| Lifecycle.ResetRotatesPassword | internal/handlers/password_reset.go:120-142 | after a reset the new password logs in, and the old one is refused whenever the KDF separates it from the new one |
| Lifecycle.ResetKeepsSessions | internal/handlers/password_reset.go:126-142 | a password reset does not revoke or alter any session |

## Left out

- Request binding (`ShouldBindJSON`'s required fields and e-mail syntax check) runs before every handler's checks and is not modelled; inputs are taken as already bound.
- HTTP plumbing: headers, client-IP extraction and JSON bodies are parameters, and responses are outcome datatypes with `Status()` and `Message()`.
- Routing, CORS, the API-key middleware, the Firebase token middleware, environment loading and database connection/migration are outside this model.
- The password-reset table is assumed to exist. The migration in `internal/config/database.go` creates only the user and session tables. On a database migrated by that code alone, every reset insert and every reset lookup would fail with a 500.
- Store failures other than a duplicate primary key on insert are not modelled. That covers lookup errors other than not-found, failed saves and the ignored errors of `Delete`.
- Auth.Register: the 500 returned when inserting the user fails is not modelled. In a sequential store with no deletions the checks before it already guarantee the unique constraints.
- CreatedAt and UpdatedAt are not modelled, since no decision reads them. DeletedAt is kept only as set or unset: a row with DeletedAt set sits in the deleted-key set instead of the live map. Its timestamp is dropped.
- Auth.VerifySession: the handler reads the clock three times, at `internal/handlers/auth.go:221` (`After`), `:228` (`Until`) and `:229` (`Now().Add`). The model uses one `now` for all three, so it does not capture that the renewal test and the new expiry use slightly later readings than the expiry test.
- scrypt and SHA-256 are abstract. scrypt's error return cannot occur with the fixed parameters and is not modelled.
- The reset token's base64 format is not modelled. The token is an opaque input.
- Printing the reset token to standard output is I/O. The outcome `ResetIssued(email, token)` carries what is printed.
- Timing behaviour cannot be expressed. The hash comparison is ordinary string equality, not constant-time.
- The rate limiter's mutex only makes the read and overwrite atomic, and the model is sequential. Concurrency in general is out of scope, including two registrations racing for one username.
- Stored instants are exact nanoseconds in the model. PostgreSQL's `timestamptz` keeps whole microseconds, so the stored `Expiry` and `ExpiresAt` lose their sub-microsecond part, while the handlers compare them with a nanosecond `time.Now()`. The boundary results below hold only when the login or renewal instant falls on a whole microsecond.
- Lifecycle.SessionTimeline: at exactly 3h after login the database-backed handler renews, because `Until` is slightly under 3h, while the model reports the session live. At exactly 6h it reports "Session expired", while the model renews.
- Lifecycle.RenewedThenActive: at exactly 3h after a renewal the database-backed handler renews again, while the model writes nothing.
- Time arithmetic is unbounded. Go's int64 wrap-around and `Duration` saturation near the ends of the time range are not modelled.
- Hex.Decode: Go distinguishes a length error from an invalid-byte error. Both become `None`, since the caller only tests for an error.

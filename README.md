# Authentication core of a small Express backend, modelled in Dafny

The backend registers users with a bcrypt-hashed password, logs them in,
issues a JWT session token that travels in an httpOnly `token` cookie or an
`Authorization: Bearer` header, and guards routes with two middlewares:
`protect` (authenticate the token and attach the user) and `adminOnly`
(role gate). This project models that decision logic with the foreign
services kept abstract, and proves what the handlers promise.

Layout (one module per file):

- `wrappers.dfy` — `Option`, for JavaScript's `undefined`/`null`.
- `text.dfy` — `Text`: `toLowerCase`, `startsWith`, `split(" ")` and `join`, with the split/join round trips.
- `crypto.dfy` — `Crypto`: the configuration value `Env` holding `NODE_ENV`, the bcrypt key derivation and JWT sign/verify as uninterpreted functions; `Hash` and `Matches` (bcrypt's hash and compare).
- `sample_tokens.dfy` — `SampleTokens`: a concrete sign/verify pair that meets the token assumption of `Crypto`.
- `users.dfy` — `Users`: the user document, its public view without the password, the collection keyed by lower-case email, lookups by email and by id.
- `http.dfy` — `Http`: truthiness of request fields, responses, cookie actions, the client's cookie jar, and the `Request` object whose `user` field `protect` sets.
- `auth_middleware.dfy` — `AuthMiddleware`: `extractToken`, `protect`, `adminOnly`.
- `auth_routes.dfy` — `AuthRoutes`: `generateToken`, `setTokenCookie`, the `UserStore` class with `Register`, and `Login`, `Logout`, `Me`.

Foreign calls and where they went:

- `bcrypt.genSalt(10)` is the `salt` parameter of `Register`; the cost 10 is `SALT_ROUNDS`.
- `bcrypt.hash` is `Crypto.Hash`, which stores cost and salt next to `env.kdf(password, cost, salt)`.
- `bcrypt.compare` is `Crypto.Matches`, which re-derives the key with the stored cost and salt.
- `jwt.sign` is `env.sign(id, now)`, where `now` is the issue time the token records; it is a parameter of `Register` and `Login`.
- `jwt.verify` is `env.verify(token, now)`, checked at the request's time `now`. Under `Crypto.TokensSound` it gives no id for an expired token or for a string the server never issued (tampered, forged or malformed).
- `Crypto.TokensSound` states what the lemmas about issued tokens assume of sign and verify under one secret. A token issued at `t` verifies to its id exactly while `now < t + 604800` (`expiresIn: "7d"`, seconds). From then on it is refused. Every token is non-empty and free of spaces, like a real JWT. Any string `verify` accepts is a token signed for that id at an issue time that has not yet expired.
- Each lemma about an accepted token requires that token to be unexpired at the time it is checked (`Crypto.Unexpired`).
- `SampleTokens.ExpiringVerifierIsSound` shows that the assumption can be met. A sample sign/verify pair meets it by writing the id and issue time into the token, refusing the token seven days later and refusing every string it did not issue.
- `Crypto.CollisionFree` is the idealised hash under which only the registered password matches.
- `User.findOne` and `User.create` act on the `users` map of `UserStore`.
- `User.findById(...).select("-password")` is `Users.FindById` followed by `Users.WithoutPassword`.
- MongoDB's fresh `_id` is the store's `nextId` counter.
- `process.env.NODE_ENV` is `env.nodeEnv`.

`extractToken` returns `""` rather than `null` for a `"Bearer "` header
whose second field is empty when there is no cookie
(`AuthMiddleware.EmptyFieldWithoutCookie`). `protect` treats that `""` as a
missing token.

## Model

| member | source | states |
|---|---|---|
| Text.LowerChar | routes/auth.js:50 | `toLowerCase` on one character: ASCII capitals move down by 32, every other character is kept |
| Text.Lower | routes/auth.js:64 | `email.toLowerCase()` keeps the length and lowers every character in place |
| Text.StartsWith | middleware/authMiddleware.js:12 | `startsWith(prefix)`: the prefix fits and the string's first characters are exactly the prefix |
| Text.Split | middleware/authMiddleware.js:14 | `split(" ")` always yields at least one field; its meaning is given by the split lemmas below |
| Text.LowerIdempotent | routes/auth.js:64 | lowering a lowered email changes nothing, so the stored email is its own collection key |
| Text.LowerEqualIffSameIgnoringCase | routes/auth.js:50 | two emails lower to the same key exactly when they differ only in letter case |
| Text.SplitJoin | middleware/authMiddleware.js:14 | joining the fields of `split(" ")` with the separator gives back the header |
| Text.JoinSplit | middleware/authMiddleware.js:14 | splitting a join of separator-free fields gives back exactly those fields |
| Text.SplitFieldsFree | middleware/authMiddleware.js:14 | no field of `split(" ")` contains a space |
| Text.SplitFree | middleware/authMiddleware.js:14 | a string without a space splits into itself alone |
| Text.SplitAfterField | middleware/authMiddleware.js:14 | a space-free prefix followed by a space becomes the first field, and the rest splits on its own |
| Text.SplitFirstField | middleware/authMiddleware.js:14 | the first field is the longest space-free prefix: it ends at the end of the string or just before a space |
| Crypto.Hash | routes/auth.js:59-60 | the stored hash carries cost 10 and the generated salt, and `bcrypt.compare` with the same password matches it |
| Crypto.Unexpired | routes/auth.js:13 | a token issued at `issuedAt` is still valid at `now` exactly when less than 7 days (604800 s) have passed |
| Crypto.TokensSound | routes/auth.js:11-15 | the assumption on `jwt.sign`/`jwt.verify` under one secret: an issued token verifies to its id exactly before issue time plus 604800 s, tokens are non-empty and space-free, and only issued, unexpired tokens are accepted |
| SampleTokens.ExpiringVerifierIsSound | routes/auth.js:11-15 | a verifier that refuses every token seven days after its issue time and every string it did not issue satisfies the token assumption, so that assumption admits `expiresIn: "7d"` and a real signature check |
| Crypto.Matches | routes/auth.js:115 | `bcrypt.compare`: the password matches when re-deriving it with the hash's own cost and salt gives the stored key |
| Crypto.OnlyHashedPasswordMatches | routes/auth.js:115 | under a collision-free hash a password matches a stored hash exactly when it is the registered password |
| Users.WithoutPassword | middleware/authMiddleware.js:40 | the record with the password deselected keeps id, name, email and role |
| Users.FindByEmail | routes/auth.js:106 | a lookup by lower-case email finds a record exactly when one is stored under that key, and finds that record |
| Users.FindById | middleware/authMiddleware.js:40 | a lookup by decoded id finds a record exactly when some stored record has that id, and the record found has it |
| Users.FindByIdStored | middleware/authMiddleware.js:40 | with unique ids, looking up a stored record's id returns that very record |
| Http.Truthy | routes/auth.js:36 | the `!x` test on a request field: a field counts as present exactly when it is defined and not `""` |
| Http.Failure | routes/auth.js:37-40 | an error answer has the given status, `success: false`, the message, and no token, user or cookie |
| Http.ApplyCookie | routes/auth.js:151 | setting a cookie stores its value under its name; clearing removes exactly that name and keeps every other cookie |
| AuthMiddleware.HeaderToken | middleware/authMiddleware.js:10-15 | the header candidate: element [1] of `split(" ")` for a truthy header starting with "Bearer ", otherwise none; characterised by `HeaderTokenIsFirstWord` |
| AuthMiddleware.CookieToken | middleware/authMiddleware.js:18-19 | the cookie candidate: the `token` cookie when cookies were parsed and it is non-empty, otherwise none |
| AuthMiddleware.HeaderTokenIsFirstWord | middleware/authMiddleware.js:10-15 | a header starting with "Bearer " always yields element [1] of its split, and that is the run of non-space characters right after the prefix; any other header yields nothing |
| AuthMiddleware.ExtractToken | middleware/authMiddleware.js:6-23 | a truthy header token wins; otherwise a truthy `token` cookie is used; the result is truthy exactly when one of the two is; it is null exactly when there is no "Bearer " header and no cookie token |
| AuthMiddleware.BearerHeaderWins | middleware/authMiddleware.js:10-20 | `Bearer <t>` with a non-empty space-free `t` yields `t` whatever the cookies hold |
| AuthMiddleware.NoBearerUsesCookie | middleware/authMiddleware.js:17-20 | a missing header, or one without the "Bearer " prefix, leaves the decision to the `token` cookie |
| AuthMiddleware.DoubleSpaceFallsBackToCookie | middleware/authMiddleware.js:14-20 | `"Bearer  x"` has an empty second field, so the cookie token is used |
| AuthMiddleware.EmptyFieldWithoutCookie | middleware/authMiddleware.js:14-22 | `"Bearer "` with no cookie yields the empty string rather than null |
| AuthMiddleware.ExtraFieldsIgnored | middleware/authMiddleware.js:14 | `"Bearer a b"` yields `"a"` |
| AuthMiddleware.Authenticate | middleware/authMiddleware.js:25-57 | every refusal is a 401 without a cookie; no truthy token gives "token missing", a failed verification "Not authorized", an unknown id "user not found"; the user is attached exactly when the token verifies to a stored id, and it is that record without its password |
| AuthMiddleware.Protect | middleware/authMiddleware.js:25-57 | on success sets `req.user` to the authenticated user and calls `next`; on refusal answers with the 401 and leaves `req.user` unchanged |
| AuthMiddleware.IssuedTokenAuthenticates | middleware/authMiddleware.js:37-48 | a token issued for a stored user and still unexpired authenticates as that user (without password) |
| AuthMiddleware.TamperedTokenRefused | middleware/authMiddleware.js:37-56 | a non-empty string that is no token the server issued for any id at any time is refused with 401 "Not authorized" |
| AuthMiddleware.ExpiredTokenRefused | middleware/authMiddleware.js:37-56 | seven days after issue a token is refused with 401 "Not authorized", never 500 |
| AuthMiddleware.AdminOnly | middleware/authMiddleware.js:59-67 | calls `next` exactly when a user is attached and its role is "admin"; otherwise answers 403 "Admin access only" |
| AuthMiddleware.AdminGateFollowsRole | middleware/authMiddleware.js:25-67 | an unexpired bearer token issued for a stored user passes `protect`, and then passes the admin gate exactly when that user is an admin |
| AuthRoutes.GenerateToken | routes/auth.js:11-15 | the token issued at `now` verifies to the user's id at every time before `now` + 7 days and is refused from then on; it is a non-empty space-free string |
| AuthRoutes.IsProduction | routes/auth.js:19 | production mode holds exactly when `NODE_ENV` is the string "production" |
| AuthRoutes.SetTokenCookie | routes/auth.js:18-27 | the `token` cookie holds the token, is always httpOnly, secure and strict exactly in production, lax otherwise, with maxAge 604800000 ms |
| AuthRoutes.RoleFor | routes/auth.js:66 | the stored role is admin exactly when the requested role is the string "admin", otherwise "user" |
| AuthRoutes.RegisterError | routes/auth.js:36-57 | registration is accepted exactly when name, email and password are truthy, the password has at least 6 characters and the lower-case email is free; each refusal is the 400 with the message of the first check that fails |
| AuthRoutes.TakenEmailAlwaysRejected | routes/auth.js:50-57 | an email already stored, given again in any letter case, is refused with 400 whatever the name, password and role |
| AuthRoutes.NewUser | routes/auth.js:62-67 | the created record has the new id, the given name, the lower-case email, the bcrypt hash and not the plaintext, and the admin role exactly when "admin" was requested |
| AuthRoutes.Authenticated | routes/auth.js:69-82 | the success answer has the status, `success: true`, a token for the user's id, that token as cookie, and a user body of id, name, email and role only |
| AuthRoutes.UserStore.Register | routes/auth.js:32-90 | keeps the store invariant (records under their lower-case email, unique ids); a refusal answers 400 and changes nothing; an acceptance adds exactly one record under the lower-case email, keeps every other record, and answers 201 with token, cookie and public fields |
| AuthRoutes.CredentialsMatch | routes/auth.js:106-117 | credentials are accepted when a record is stored under the lower-case email and the password matches its hash |
| AuthRoutes.Login | routes/auth.js:95-145 | 400 exactly when email or password is missing; every 401 is the same "Invalid credentials"; 200 exactly when the lower-case email is stored and the password matches, with a token and cookie for that record; never changes the collection |
| AuthRoutes.LoginDoesNotRevealWhichFailed | routes/auth.js:106-122 | an unknown email and a wrong password give identical responses |
| AuthRoutes.LoginAfterRegister | routes/auth.js:59-137 | after an accepted registration, login with any case variant of the email and the same password answers 200 for the new record, with a token that decodes to its id |
| AuthRoutes.WrongPasswordAfterRegister | routes/auth.js:115-122 | after an accepted registration, any other non-empty password is refused with 401 "Invalid credentials" (collision-free hash) |
| AuthRoutes.Logout | routes/auth.js:150-156 | takes no input, always answers 200 with `success: true`, no token and no user, and clears the `token` cookie |
| AuthRoutes.LogoutIdempotent | routes/auth.js:150-156 | after logout the client holds no token cookie, and a second logout changes nothing |
| AuthRoutes.LogoutThenProtectRejects | routes/auth.js:150-156 | after logout a request without a "Bearer " header is refused by `protect` with 401 "token missing" |
| AuthRoutes.Me | routes/auth.js:161-166 | answers 200 with the attached user and no token or cookie |
| AuthRoutes.GetMe | routes/auth.js:161-166 | `/me` behind `protect` answers 200 with the authenticated user exactly when `protect` lets it through; otherwise it answers `protect`'s own 401 response |
| AuthRoutes.RegisterThenLogin | routes/auth.js:32-137 | on a live store, a registration followed by a later login with a case variant of the email answers 201 then 200 with the same public user; each token is signed at its own issue time; at the login time the login token verifies to the new record's id, and so does the registration token while unexpired; the store gains exactly the new record under the lower-case email and the next id advances by one |

## Left out

- The 500 answers of `/register`, `/login` and `/me` (the `catch` blocks): they follow from failures of the database, bcrypt or JWT signing (for instance a missing secret), or from a non-string JSON field. The model has no such failure, so these paths are unreachable in it.
- `protect` also answers 401 "Not authorized" when the database lookup throws. The model covers the failing `jwt.verify` only; lookups never fail.
- Request body fields are modelled as optional strings. JSON numbers, booleans, arrays and objects, with JavaScript's truthiness and `.length` on them, are not modelled.
- Text.Lower, Text.LowerChar: lower ASCII letters only. JavaScript's `toLowerCase` follows full Unicode case mapping.
- AuthRoutes.RegisterError: counts the password length in Unicode code points. JavaScript's `.length` counts UTF-16 code units.
- Crypto.CollisionFree: idealises bcrypt. The real bcrypt ignores password bytes beyond the 72nd, so two long passwords can match one hash.
- The JWT secret and the token format are inside the abstract `env.sign` and `env.verify`. `TokensSound` idealises the signature as unforgeable: `env.verify` accepts a string only when it is what `env.sign` gives for that id at an unexpired issue time.
- `res.cookie` also derives an `Expires` date from `maxAge`, and `clearCookie` sets an expired cookie; both are modelled as cookie-jar updates on the client.
- `/me` returns the stored document without its password (with `_id` and any other stored fields). It is modelled as the public view with id, name, email and role.
- The `User` schema (models/User is not part of this model): its validators, the unique index and any trimming are not modelled. Email uniqueness comes from the collection being keyed by lower-case email.
- Concurrent requests and async scheduling: requests run one at a time on the store, so two simultaneous registrations of one email are not modelled.
- `console.error` logging and the exact JSON serialisation of responses.
- server.js (helmet, CORS, body parsing, cookie parsing, rate limiting, static files, `listen`), routes/health.js (responses built around a wall-clock timestamp around `protect`) and script.js (browser UI) are framework wiring or front end and are not modelled.

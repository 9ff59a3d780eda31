# AvouraAuth authentication core in Dafny

This project models the authentication, session and authorisation core of
AvouraAuth, a Next.js service. It covers:

- the helpers of `lib/auth.js`: password hashing, tokens, the rate limiter,
  input sanitising, and the e-mail and password checks;
- the in-memory store of `lib/db.js`;
- the five route handlers: register, login, verify, logout and the
  authenticated script download.

The source switches every helper except `isValidEmail` on a hard-coded
`TESTING_MODE = true`.
Here the flag is a `Mode` argument (`Testing | Strict`), so both branches
are modelled and proved.

Layout, one module per file:

- `js.dfy` (`Js`): the JavaScript semantics the code relies on. This covers
  truthiness of parsed JSON values, the `\s` class, `trim`, `startsWith`,
  one-character `split` and ASCII `toLowerCase`.
- `js_number.dfy` (`JsNumber`): `${n}` for integers and `parseInt`, with
  `None` standing for `NaN`.
- `hex.dfy` (`Hex`): `buffer.toString("hex")`.
- `auth.dfy` (`Auth`): the pure helpers of `lib/auth.js`.
- `rate_limit.dfy` (`RateLimit`): `checkRateLimit` as the method of a
  `RateLimiter` class whose `store` field is the module-level map.
- `db.dfy` (`Db`): the store as a `Database` class.
  - Its fields are the `users` and `sessions` maps, plus the insertion
    order of the e-mail keys. The order matters because `getUserById` and
    `updateUser` scan the `Map` in that order.
  - `getUserById` and `updateUser` keep their scanning loops, proved against
    the `FirstKeyWithId` specification function.
- `http.dfy` (`Http`): the response shape, the `Bearer` header, the client
  address and the e-mail normalisation the handlers share.
- `register.dfy`, `login.dfy`, `verify.dfy`, `logout.dfy`, `script.dfy`:
  the handlers. Each is a method over the store (and the rate limiter).
  Its contract gives the reply and the new state for every path of its
  guard chain.
- `scenarios.dfy` (`Scenarios`): request sequences with their proved
  outcomes:
  - register, log in, verify, log out, then verify again (refused);
  - a duplicate registration;
  - six wrong-password logins in strict mode (five 401s, then a 429);
  - a double session delete.

The following are arguments: the key-derivation function (PBKDF2), random
bytes, random UUIDs, the clock (`now`, in milliseconds) and the script-file
read (`files`, an oracle from game id to content).

## Model

| member | source | states |
|---|---|---|
| Js.TrimStart | lib/auth.js:51 | What `parseInt` skips: the result is a suffix of the input, it does not start with white space, and everything dropped is white space |
| Js.TrimEnd | lib/auth.js:99 | The end half of `trim`: the result is a prefix of the input, it does not end with white space, and everything dropped is white space |
| Js.Trim | lib/auth.js:99 | The result of `trim` is no longer than the input and has no white space at either end |
| Js.TrimKeepsChars | lib/auth.js:99 | Every character of the result of `trim` comes from the input |
| Js.TrimOfTrimmed | lib/auth.js:99 | `trim` leaves text without surrounding white space unchanged |
| Js.ToLower | app/api/auth/register/route.js:35 | `toLowerCase` keeps the length and maps each character by the ASCII case mapping |
| Js.ToLowerOfLowerCase | app/api/auth/register/route.js:35 | Text without upper-case letters is its own lower-case form |
| Js.Split | lib/auth.js:50 | `split` on one character gives at least one part, no part contains the separator, and more than one part only when the separator occurs |
| Js.SplitWithoutSeparator | lib/auth.js:23 | A string without the separator splits into itself alone |
| Js.SplitAtFirstSeparator | lib/auth.js:50 | Splitting `a:b`, where `a` has no `:`, gives `a` followed by the split of `b` |
| Js.JoinSplit | lib/auth.js:50 | No part of a split contains the separator, and joining the parts gives back the string |
| Js.SplitJoin | lib/auth.js:50 | Splitting the join of separator-free parts gives back those parts |
| Js.SplitThree | lib/auth.js:50 | `a:b:c` with colon-free fields splits into exactly `[a, b, c]` |
| Js.SplitTwo | lib/auth.js:23 | `a:b` with colon-free fields splits into exactly `[a, b]` |
| JsNumber.ParseInt | lib/auth.js:51 | `parseInt` is `NaN` unless, after leading white space, the text starts with a sign or a digit |
| JsNumber.DigitValue | lib/auth.js:51 | A character's digit value, when there is one, is below the radix |
| JsNumber.DigitRun | lib/auth.js:51 | The digit run `parseInt` reads is the longest prefix of digits: all of it is digits, and the character after it is not one |
| JsNumber.ShowNat | lib/auth.js:36 | The decimal text of a number is non-empty and made of decimal digits |
| JsNumber.ShowInt | lib/auth.js:36 | The text of a timestamp never contains `:` |
| JsNumber.ShowNatValue | lib/auth.js:36 | The decimal text of `n` denotes `n` |
| JsNumber.DigitRunOfDigits | lib/auth.js:51 | A string of digits is read to its end |
| JsNumber.MagnitudeOfDigits | lib/auth.js:51 | `parseInt`'s unsigned value of a decimal numeral is the number it denotes |
| JsNumber.SignedMagnitude | lib/auth.js:51 | `parseInt` of an optional minus sign and a numeral is the numeral's value, negated when signed |
| JsNumber.ParseShowInt | lib/auth.js:51 | `parseInt` reads back the timestamp `generateToken` wrote, for every integer |
| JsNumber.ParseUndefined | lib/auth.js:51 | `parseInt(undefined)` is `NaN` |
| Hex.HexChar | lib/auth.js:12 | A nibble becomes a lower-case hexadecimal digit |
| Hex.ToHex | lib/auth.js:12 | The hex text of bytes has two hex digits per byte and no `:` |
| Hex.ToHexInjective | lib/auth.js:24-25 | Distinct byte strings have distinct hex text, so comparing hex text compares derived keys |
| Auth.HashPassword | lib/auth.js:7-15 | Testing mode stores the password itself. Strict mode stores text that splits at `:` into exactly the salt's hex and the derived key's hex |
| Auth.VerifyPassword | lib/auth.js:18-26 | Strict mode: a stored form without `:` has no hash field and matches no password |
| Auth.PasswordRoundTrip | lib/auth.js:7-26 | A password verifies against its own hash, in both modes |
| Auth.VerifyAgainstHash | lib/auth.js:18-26 | Another password verifies against a hash exactly when it is equal to the original (testing mode) or derives the same key under that salt (strict mode) |
| Auth.GenerateToken | lib/auth.js:29-37 | Testing mode: `test_token_` followed by the user id. Strict mode, for a colon-free id: three `:` fields, the id, the decimal issue time and the hex of the random bytes |
| Auth.ValidateToken | lib/auth.js:40-62 | Testing mode: an id exactly when the token starts with `test_token_`, and the token is the prefix followed by that id. Strict mode: an id is the token's first `:` field, and null is returned exactly when the second field parses to a time more than 24 hours before `now`, crafted tokens included |
| Auth.TestingTokenRoundTrip | lib/auth.js:29-46 | Testing mode: a generated token validates to its user id, at any time |
| Auth.TestingTokenNeedsPrefix | lib/auth.js:41-46 | Testing mode: a token validates exactly when it starts with `test_token_` |
| Auth.StrictTokenRoundTrip | lib/auth.js:29-58 | Strict mode: a token for a colon-free id validates to that id while at most 24 hours old (exactly 24 hours included), and to null after that |
| Auth.StrictTokenWithoutTimestamp | lib/auth.js:49-58 | Strict mode: a token whose second field is missing or holds no number is accepted, and its first field is returned as the id |
| Auth.RemoveChars | lib/auth.js:97-98 | The result of deleting characters is no longer than the input and contains none of them |
| Auth.RemoveCharsCounts | lib/auth.js:97-98 | Deleting characters removes every occurrence of them and keeps every occurrence of every other character |
| Auth.RemoveCharsAppend | lib/auth.js:97-98 | Deleting characters from a concatenation is deleting them from each part and concatenating the results |
| Auth.RemovedCharsNotStripped | lib/auth.js:96-98 | After the two `replace` calls, none of `< > ' " ;` is left |
| Auth.CleanText | lib/auth.js:96-100 | Cleaned text is at most 255 characters and contains none of `< > ' " ;` |
| Auth.SanitizeInput | lib/auth.js:88-101 | Testing mode and non-strings: the input is returned unchanged. Strict mode on a string: a string of at most 255 characters without `< > ' " ;` |
| Auth.RemoveAbsentChars | lib/auth.js:97-98 | Deleting characters that do not occur changes nothing |
| Auth.CleanTextUnchanged | lib/auth.js:96-100 | Text that is already clean, trimmed and at most 255 characters long passes unchanged |
| Auth.SanitizeCleanString | lib/auth.js:88-101 | `sanitizeInput` leaves clean text unchanged in both modes |
| Auth.SanitizeIdempotent | lib/auth.js:88-101 | Sanitising twice is sanitising once: always in testing mode, and in strict mode unless the 255-character cut left white space at the end |
| Auth.IsValidEmail | lib/auth.js:104-107 | An accepted address has at least five characters and contains `@` and `.` |
| Auth.EmailFromParts | lib/auth.js:104-107 | Every `L@A.B` with `L`, `A` and `B` non-empty and free of white space and `@` is a valid e-mail |
| Auth.EmailParts | lib/auth.js:104-107 | Every valid e-mail is such an `L@A.B` |
| Auth.ValidEmailHasOneAt | lib/auth.js:104-107 | A valid e-mail has exactly one `@` and no white space |
| Auth.IsValidPassword | lib/auth.js:110-122 | Neither policy accepts the empty password |
| Auth.StrictPasswordIsTestingPassword | lib/auth.js:110-122 | A password the strict policy accepts is accepted by the testing policy |
| RateLimit.Tick | lib/auth.js:73-81 | A missing record or an ended window restarts at one call with `resetAt = now + windowMs`. Otherwise the same window counts one more call |
| RateLimit.After | lib/auth.js:67-85 | Testing mode leaves the store alone. Strict mode adds or updates the caller's record only; every other identifier keeps its record |
| RateLimit.Allows | lib/auth.js:84 | Strict mode: a missing record or an ended window allows the call exactly when `maxAttempts` is at least one; within an open window, exactly when fewer than `maxAttempts` calls were counted before it |
| RateLimit.RateLimiter.constructor | lib/auth.js:65 | The limiter starts with an empty store |
| RateLimit.RateLimiter.CheckRateLimit | lib/auth.js:67-85 | The answer is yes in testing mode, otherwise whether the window's count, this call included, is at most `maxAttempts`. The new store is the old one after the call, refused calls counted too |
| RateLimit.CallsWithinWindow | lib/auth.js:73-84 | Calls inside an open window: each is allowed exactly when the count with it stays within the limit. Each adds one to the count, and the window does not move |
| RateLimit.FreshWindow | lib/auth.js:73-84 | In a freshly opened window, the first `maxAttempts` calls are allowed and every later one is refused, yet still counted |
| Db.Public | lib/db.js:23 | The returned record carries every field of the user except the password |
| Db.OrNull | lib/db.js:18 | A truthy game id is kept; a falsy one becomes `null` |
| Db.Apply | lib/db.js:42 | Each field the update gives takes the update's value, and each field it leaves out keeps the user's, so the empty update changes nothing |
| Db.ApplyTwice | lib/db.js:42 | Applying the same update twice is applying it once |
| Db.LiveSession | lib/db.js:64-76 | A session is returned exactly when one is stored under the token and `now` is not past its expiry time, and then it is the stored one |
| Db.FirstKeyWithId | lib/db.js:30-37 | The key found is the first in insertion order whose user has the id. None is found exactly when no user has it |
| Db.Evict | lib/db.js:64-76 | Reading a session removes at most the read token's entry, exactly when that session has expired; other sessions are untouched |
| Db.Database.constructor | lib/db.js:4-5 | The store starts with no users and no sessions |
| Db.Database.CreateUser | lib/db.js:9-24 | A taken e-mail gives "User already exists" and changes nothing. Otherwise exactly one record is added under that e-mail, with a falsy game id stored as `null`; it is returned without its password |
| Db.Database.GetUserByEmail | lib/db.js:26-28 | Exact-key lookup: the stored record, password included, or null when the key is absent |
| Db.Database.UserWithId | lib/db.js:30-37 | The user found has the id and is stored; none is found exactly when no stored user has the id |
| Db.Database.FindKeyWithId | lib/db.js:31-32 | The loop shared by `getUserById` and `updateUser` finds the first key in insertion order whose user has the id |
| Db.Database.GetUserById | lib/db.js:30-37 | The first user in insertion order with the id, without its password, or null |
| Db.Database.UpdateUser | lib/db.js:39-48 | The first user with the id gets the update under its original e-mail key, and every other user is unchanged. No change and null when no user has the id |
| Db.Database.CreateSession | lib/db.js:51-62 | The session lives 24 hours and is stored under its token, replacing any session already stored there |
| Db.Database.GetSession | lib/db.js:64-76 | Returns the stored session unless it expired strictly before `now`; an expired one is removed |
| Db.Database.DeleteSession | lib/db.js:78-80 | The answer is true exactly when the token was present. Afterwards it is absent and everything else is unchanged |
| Db.Database.ClearAll | lib/db.js:83-86 | Both maps are emptied |
| Db.Database.GetAllUsers | lib/db.js:88-90 | Every user, once each and in insertion order, with the password shown as `***` |
| Db.SessionLifetime | lib/db.js:51-76 | A created session is returned at every time up to 24 hours after creation, that bound included. After that it is refused and removed, leaving other sessions alone |
| Http.BearerToken | app/api/auth/verify/route.js:6-15 | A token exists exactly when the header starts with `Bearer `; the header is then `Bearer ` followed by the token |
| Http.BearerRoundTrip | app/api/auth/verify/route.js:8-15 | The header built from a token gives back that token |
| Http.ClientIp | app/api/auth/login/route.js:16 | The address is the `x-forwarded-for` header when that is present and non-empty, otherwise `unknown` |
| Http.NormalizedEmail | app/api/auth/login/route.js:34 | Only a string e-mail normalises, since other values make `toLowerCase` throw. The result has no upper-case ASCII letter |
| Http.NormalizedCleanEmail | app/api/auth/register/route.js:35 | Clean, lower-case text is its own normal form |
| Register.RequestedGameId | app/api/auth/register/route.js:62 | A falsy game id becomes `null`. A truthy one is kept in testing mode and when it is not a string. A strict-mode string becomes a string of at most 255 characters without `< > ' " ;` |
| Register.Post | app/api/auth/register/route.js:11-91 | Every parsed request is counted first (3 per hour per address), then in order: 429, 400 for missing fields, 500 for a non-string e-mail, 400 for a bad format, 400 with the mode's message for a weak password, 409 for a taken address, else 201 adding exactly one user with the hashed password; only 201 changes users |
| Login.PasswordMatches | app/api/auth/login/route.js:46 | A string password is checked with `verifyPassword`. Any other value fails in testing mode and throws in strict mode |
| Login.Post | app/api/auth/login/route.js:10-79 | Every parsed request is counted first (5 per 15 minutes per address), then in order: 429, 400 for missing fields, the same 401 for an unknown e-mail and a wrong password, else 200 with the generated token and `{id, email, gameid}` and one new 24-hour session under the token; users never change, and no failure creates a session |
| Login.TokenAndSessionExpireTogether | app/api/auth/login/route.js:53-57 | Strict mode, token issued at or before the session's creation: while the token validates the session is live, and 24 hours after creation both are refused. Issued at the same instant, they are accepted at exactly the same times |
| Verify.Get | app/api/auth/verify/route.js:4-62 | 401 for no `Bearer ` header, for a token that validates to null or `""`, for no live session, or for no user with the session's (not the token's) user id; else 200 with that user's id, e-mail and game id; the only change is the eviction of an expired session read |
| Logout.Post | app/api/auth/logout/route.js:3-34 | Without a `Bearer ` header: 401 and no change. Otherwise 200 after deleting the session stored under the unvalidated suffix, whether or not it existed; users and other sessions are unchanged |
| Script.SelectToken | app/api/script/route.js:20-24 | A non-empty `token` parameter is used. Any other token is the text after `Bearer ` in the header |
| Script.QueryTokenFirst | app/api/script/route.js:20-24 | A non-empty `token` query parameter wins over any header |
| Script.HeaderTokenFallback | app/api/script/route.js:19-24 | With no usable parameter, a `Bearer ` header supplies its text after seven characters, and any other header supplies nothing |
| Script.Authorized | app/api/script/route.js:73 | A user whose game id is the requested one may fetch it; a user with a truthy game id may fetch only that game's script |
| Script.UnrestrictedUserAuthorized | app/api/script/route.js:73 | A user with a falsy game id may fetch every script |
| Script.ScopedUserAuthorized | app/api/script/route.js:73-81 | A user with game id `g` may fetch exactly the script of `g` |
| Script.Get | app/api/script/route.js:6-100 | 400 for a missing game id before anything else; 401 for no token, an invalid token, no live session or no user; 403 for the wrong game scope; only then the file read, 404 on failure and 200 with its text on success; the only change is the eviction of an expired session read |
| Scenarios.DeleteTwice | lib/db.js:78-80 | Deleting a stored session twice answers true, then false |
| Scenarios.DuplicateRegistration | app/api/auth/register/route.js:59-83 | Registering the same address twice gives 201, then 409 "User already exists" |
| Scenarios.ThrottleStep | app/api/auth/login/route.js:17 | One more login within the window adds one to the count, and is allowed exactly while five or fewer logins have been counted, this one included |
| Scenarios.WrongPasswordLogin | app/api/auth/login/route.js:17-51 | A strict-mode login with a wrong password, after `k` counted logins, gives 401 when `k < 5` and 429 otherwise, and is counted |
| Scenarios.LoginThrottle | app/api/auth/login/route.js:17-51 | Strict mode: six wrong-password logins from one address within the window give 401 five times, then 429 |
| Scenarios.RegisterFresh | app/api/auth/register/route.js:17-75 | On a fresh store, a well-formed address with an accepted password registers (201), storing exactly that user with the hashed password |
| Scenarios.LoginRegistered | app/api/auth/login/route.js:16-70 | The registered user logs in with the same password: 200 with the generated token, and one session under that token |
| Scenarios.VerifyLoggedIn | app/api/auth/verify/route.js:6-53 | The header built from a live session's token verifies as that session's user |
| Scenarios.LogoutThenVerify | app/api/auth/logout/route.js:5-25 | Logging out with a valid token answers 200, after which verifying the same token answers 401 "Session not found" |
| Scenarios.SessionLifecycle | app/api/auth/verify/route.js:27-33 | For every valid address, accepted password and colon-free id: register 201, log in 200 with a token that validates to the id, verify 200 as that user, log out 200, verify again 401 "Session not found" |

The four handler contracts give the reply and the new state for every path,
in the order of the source's guards:

- Register.Post:
  - a body that does not parse gives 500;
  - every parsed request is counted under `register:<ip>`, with three per
    hour;
  - over the limit gives 429;
  - a missing field gives 400;
  - a non-string e-mail gives 500;
  - a malformed e-mail gives 400;
  - a weak password gives 400, with the mode's message;
  - a taken address gives 409;
  - otherwise 201: exactly one user is added, with the hashed password and
    the sanitised game id or null.

  Only a 201 changes the users, and sessions never change.
- Login.Post:
  - logins are counted under `login:<ip>`, five per 15 minutes, and over the
    limit gives 429;
  - a missing field gives 400;
  - an unknown e-mail and a wrong password give the same 401;
  - success gives 200 with `generateToken(user.id)` and `{id, email, gameid}`,
    and stores one 24-hour session under the token.

  Only a 200 changes the sessions, and users never change.
- Verify.Get:
  - no `Bearer ` header gives 401;
  - a token that validates to null or `""` gives 401;
  - no live session gives 401;
  - no user with the session's user id (not the token's) gives 401;
  - otherwise 200 with that user's id, e-mail and game id.

  The only state change is removing an expired session that was read.
- Script.Get:
  - a missing or empty game id gives 400, before anything else and with no
    state change;
  - no token gives 401;
  - an invalid token gives 401;
  - no live session gives 401;
  - no user gives 401;
  - the wrong game scope gives 403;
  - a failed read gives 404;
  - otherwise 200 with the file's text.

  The only state change is removing an expired session that was read.

## Behaviour worth knowing

The model follows the code in each case:

- Session expiry. A session is refused only when its expiry time is
  strictly before the current time, so at the expiry instant itself it is
  still returned (`Db.LiveSession`, lib/db.js:70). A 24-hour lifetime
  would suggest refusal from the expiry instant on; the code keeps the
  session for that one extra millisecond.
- Tokens without a timestamp. A strict-mode token whose second field is
  missing or not a number is not refused: `parseInt` gives `NaN`, the age
  comparison is false, and the text before the first `:` is returned as the
  user id (`Auth.StrictTokenWithoutTimestamp`). The session lookup that
  follows in every handler still refuses such a token unless a session is
  stored under it.
- E-mail normalisation. The store matches e-mail keys exactly; the
  lower-casing and sanitising happen in the register and login handlers.
- Falsy game ids. A falsy sanitised game id (for example an input that
  sanitises to `""`) is stored as `null` (`Db.OrNull`).

## Left out

- The crypto primitives are arguments, not modelled internals:
  `pbkdf2Sync` is the `Kdf` function argument, and `randomBytes` and
  `randomUUID` are byte and string arguments.
- The clock is the integer `now` in milliseconds. ISO date strings and their
  round trip through `new Date` are not modelled; session times are integers.
- Floating point is not modelled. JSON numbers are integers, and `${n}`
  ignores the exponent form used from 1e21 on. `parseInt` is modelled for the
  integer results it produces, and `NaN` is `None`.
- String lengths count code points, not UTF-16 code units. `toLowerCase` maps
  ASCII letters only.
- The regular expressions are restated as predicates over characters, not
  run by a regex engine.
- JSON parsing is reduced to "the body parses (fields as `JsValue`) or it
  does not". `Response` headers, `console.error`, `async`/`await` and
  concurrent requests are not modelled; each handler runs to completion
  before the next.
- The script file read is the `files` oracle. `path.join` and the file
  system, including path traversal through the game id, are not modelled.
- middleware.js is not part of this model: it only reads a file by name.
- api/script/route.js is not part of this model: it is an unauthenticated
  duplicate of the script route that only reads a file.
- app/layout.js is not part of this model: it holds page metadata only.
- The module-level `TESTING_MODE` constant is the `Mode` argument of every
  helper and handler.
- Auth.SanitizeIdempotent: in strict mode, stated only for inputs whose first
  sanitised form has no trailing white space. When the 255-character cut ends in white space,
  a second pass trims it, so `sanitizeInput` is not idempotent there.
- Scenarios.LoginThrottle: stated for six logins at one instant `now`, not at
  six different times. `RateLimit.FreshWindow` covers calls spread over
  the window.
- Register.Post: an array password, or an object with a `length` property,
  is a bare `Obj` here, so it takes the weak-password branch (400). The
  source reads such a value's `length`: in testing mode a non-empty one
  registers (201) with the value stored as the password, and in strict mode
  one that passes the policy reaches `pbkdf2Sync`, which throws (500). JSON
  object and array contents are not modelled.
- Login.Post: the clock is one `now` per request. The source reads it
  separately in `checkRateLimit`, `generateToken` and `createSession`.
  Login.TokenAndSessionExpireTogether is therefore stated for any token
  issue time at or before the session's creation time, and the exact
  agreement of the two expiries only when the two readings coincide.

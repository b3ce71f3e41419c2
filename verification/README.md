# Events manager: request validation and account handlers

This project models the server side of an events-manager web service in
Dafny. It covers two parts of the service:

- the **request-validation middleware**, a set of independent stages that
  each look at an incoming request (and perhaps the database) and then
  either send a `(status, message)` response, call `next()`, or rewrite
  `req.body` in place;
- the **account handlers**: registration, login, profile read and profile
  update.

The database becomes a `Store` class with user records, a username index,
an email index and a set of event-center ids. bcrypt becomes a `Hash`
function and a `Matches` relation. A signed token becomes its payload
`Token(id, admin)`.

Files:

- `optional.dfy`: the `Option` and `Result` datatypes.
- `text.dfy`: the JavaScript whitespace set, `String.prototype.trim`,
  `parseInt(s, 10)`, and the strict integer reading this model assumes the
  database applies to an id column.
- `credentials.dfy`: the stand-in for bcrypt.
- `http.dfy`: request bodies, responses, stage outcomes and the `Request`
  object.
- `persistence.dfy`: the `Store` class with its lookups, insert and update.
- `validation.dfy`: the nine validation stages as written. It also holds
  one clearly labelled corrected stage, `RequireFields`.
- `user_controller.dfy`: `createUser`, `loginUser`, `getUser` and
  `modifyUserProfile`.

A stage ends in one of three ways, given by `Http.Outcome`. `Next` means it
called `next()`. `Respond(status, message)` means it sent a response.
`NoAnswer` means it did neither. That happens in `checkPasswordMatch` in
two ways. With no such user, reading the user's password throws inside the
promise chain, and the `catch` handler then throws again. With no password in
the body, the unchained `bcrypt.compare` promise rejects and nobody handles it.

`checkBodyContains`, `trimBodyKeys` and `trimBodyValues` loop over a list,
so they are methods that also return how often they call `next()`. The two
trimming stages also rewrite `req.body` in place. `checkBodyContains` only
reads the body. Its loop stops early when a second send throws. The other
stages are single decisions, so they are functions.

## Model

| member | source | states |
|---|---|---|
| Text.IsJsSpace | server/middleware/validation.js:74 | The characters `trim()` removes and `parseInt` skips: the WhiteSpace and LineTerminator code points of ECMA-262. |
| Text.Trim | server/middleware/validation.js:74 | `trim()` returns the infix of the string that starts after its leading whitespace. Only whitespace lies on either side of it, and neither end of the result is whitespace. |
| Text.TrimOfPadded | server/middleware/validation.js:74 | Whitespace added around a string with no whitespace at its ends is exactly what `trim()` removes. |
| Text.TrimIdempotent | server/middleware/validation.js:74 | Trimming twice is trimming once. |
| Text.TrimTightIsIdentity | server/middleware/validation.js:58 | `trim()` leaves a string with no whitespace at its ends unchanged, so such a key maps to itself. |
| Text.ParseIntReadsLeadingInteger | server/middleware/validation.js:148 | `parseInt(s, 10)` skips leading whitespace, reads the decimal integer that follows, and stops at the first non-digit. |
| Text.ParseInt | server/middleware/validation.js:148 | `parseInt(s, 10)`: skip leading whitespace, read an optional sign, then read the longest run of decimal digits. No digit gives NaN (none). |
| Text.ParseIntNaN | server/middleware/validation.js:148 | `parseInt(s, 10)` is NaN exactly when no decimal digit follows the leading whitespace and the optional sign. |
| Text.ParseIntDecimal | server/middleware/validation.js:148 | `parseInt(String(x), 10) == x` for every integer x. |
| Text.StrictInt | server/middleware/validation.js:163 | The reading of the id parameter assumed for the integer id column: an optional sign and decimal digits, with nothing before or after them. |
| Text.StrictIntDecimal | server/middleware/validation.js:163 | The strict reading of an id column also round-trips `String(x)`. |
| Text.StrictIntAgreesWithParseInt | server/middleware/validation.js:148-163 | Every value the strict id reading accepts, `parseInt` accepts with the same result. |
| Credentials.Hash | server/controllers/user.js:23 | A hash made from a password verifies that password. |
| Credentials.Matches | server/controllers/user.js:62 | The stand-in for `bcrypt.compare(plain, hash)`: the hash is well formed and was made from exactly this password. A string that is not a hash verifies nothing. |
| Credentials.HashVerifiesOnlyItsPassword | server/controllers/user.js:62-63 | For the stand-in hash, q verifies against the hash of p exactly when q equals p. bcrypt itself differs for long passwords; see "Left out". |
| Credentials.SaltedHashesDiffer | server/controllers/user.js:23 | Hashes of the same password under different salts differ, and both verify it. |
| Http.Field | server/middleware/validation.js:40 | `req.body[p]` is defined exactly when p is a key of the body, and then it is that key's value. |
| Persistence.Store.FindByUsername | server/middleware/validation.js:15-18 | It returns the stored record with that username if one exists. It returns none when there is no such record or no username was given. |
| Persistence.Store.FindByEmail | server/middleware/validation.js:128-131 | It returns the stored record with that email, or none. |
| Persistence.Store.FindCenter | server/middleware/validation.js:161-164 | Under the assumed strict reading of the id column, the lookup fails when the parameter is not an integer. It finds a center exactly when the integer is a stored center id. |
| Persistence.Store.Insert | server/controllers/user.js:24-31 | It refuses an absent or already-taken username or email and changes nothing. Otherwise it adds exactly one record, under a fresh id, with the given columns. |
| Persistence.Store.Update | server/controllers/user.js:114-120 | It replaces one record and keeps the indexes and every other record. |
| Validation.MissingResponses | server/middleware/validation.js:39-43 | The stage attempts at most one response per listed field. |
| Validation.NothingSentIffAllPresent | server/middleware/validation.js:39-43 | `checkBodyContains` attempts no response exactly when every listed field is defined. |
| Validation.SentExactlyForMissing | server/middleware/validation.js:39-43 | Every attempted response is a 400 `"<p> required in body!"` for a missing listed field p, and every missing listed field gets one attempt. |
| Validation.MissingResponsesAppend | server/middleware/validation.js:39-43 | Attempts come in list order: those for `a + b` are those for a followed by those for b. |
| Validation.Delivered | server/middleware/validation.js:41 | Once headers are sent a response cannot be sent again, so only the first attempt reaches the client. Nothing is delivered exactly when nothing is attempted. |
| Validation.CheckBodyContains | server/middleware/validation.js:37-45 | The stage delivers the 400 for the first missing field only. With at most one field missing it calls `next()` once. With two or more missing, the second send throws, the walk stops, and `next()` is never reached. |
| Validation.MissingPasswordStillCallsNext | server/middleware/validation.js:37-45 | With username and password required and only a username sent, the stage sends one 400 and still calls `next()`. |
| Validation.TwoMissingFieldsThrow | server/middleware/validation.js:37-45 | With username and password required and an empty body, only the username 400 goes out, the stage throws, and `next()` is not called. |
| Validation.RequireFields | server/middleware/validation.js:37-45 | Corrected stage: it calls `next()` exactly when every field is present, and otherwise answers 400 naming the first missing field in list order. |
| Validation.RequireFieldsSendsFirstMissing | server/middleware/validation.js:37-45 | The corrected stage sends exactly the response the stage as written delivers, and proceeds exactly when that stage attempts none. |
| Validation.TrimKeysFrom | server/middleware/validation.js:57-59 | The body only gains keys, never loses any. |
| Validation.TrimBodyKeys | server/middleware/validation.js:55-61 | `req.body` becomes the result of copying each enumerated key's value to its trimmed key, in order, and `next()` is called once. |
| Validation.TrimKeysKeySet | server/middleware/validation.js:57-59 | The resulting keys are exactly the original keys plus their trimmed forms. |
| Validation.TrimKeysKeepsIntact | server/middleware/validation.js:57-59 | When no two keys trim alike, each step keeps every original value, and every trimmed key holds its original key's value. |
| Validation.TrimKeysValues | server/middleware/validation.js:57-59 | When no two keys trim alike, both `body[k]` and `body[k.trim()]` equal the original `body[k]` afterwards. |
| Validation.TrimKeysLeavesStaleKey | server/middleware/validation.js:57-59 | The untrimmed key stays: `{" name": "bob"}` becomes `{" name": "bob", "name": "bob"}`. |
| Validation.TrimmedValues | server/middleware/validation.js:73-75 | The key set is unchanged. |
| Validation.TrimBodyValues | server/middleware/validation.js:70-78 | `req.body` becomes `TrimmedValues`, in which each listed, present field is trimmed and everything else is unchanged. `next()` is called once. |
| Validation.TrimmedValuesStep | server/middleware/validation.js:73-74 | Trimming one more listed field adds it to the set of trimmed fields, even when the field is listed twice. |
| Validation.TrimmedValuesIdempotent | server/middleware/validation.js:70-78 | Running the stage twice is running it once. |
| Validation.TrimValuesExample | server/middleware/validation.js:74 | `{username: "  bob  "}` becomes `{username: "bob"}`. |
| Validation.CheckUsernameExists | server/middleware/validation.js:87-98 | It calls `next()` exactly when some stored user has the body's username, and otherwise answers 404 `'Username does not exist!'`. |
| Validation.CheckUsernameNotExists | server/middleware/validation.js:107-118 | It answers 409 `'Username already taken!'` exactly when some stored user has the body's username, and otherwise calls `next()`. |
| Validation.UsernameStagesComplementary | server/middleware/validation.js:87-118 | For the same store and body, exactly one of the two username stages calls `next()`, and neither ends without an answer. |
| Validation.CheckEmailNotExists | server/middleware/validation.js:127-138 | It answers 409 `'Email already taken!'` exactly when some stored user has the body's email, and otherwise calls `next()`. |
| Validation.CheckPasswordMatch | server/middleware/validation.js:14-28 | For an existing user and a given password: `next()` when it verifies against the stored hash, 401 `'Wrong password or username!'` when it does not. With no such user or no password, nothing is sent. |
| Validation.CheckParamsValid | server/middleware/validation.js:147-151 | It answers 404 `'Param type is not invalid!'` exactly when `parseInt(centerId, 10)` reads no integer, and otherwise calls `next()`. |
| Validation.LeadingDigitsPassParamCheck | server/middleware/validation.js:148 | `"12abc"` passes the parameter check. |
| Validation.NoDigitsFailParamCheck | server/middleware/validation.js:148 | `"abc"` and `""` fail the parameter check. |
| Validation.CheckCenterExists | server/middleware/validation.js:160-171 | It calls `next()` exactly when a stored center has the parameter's id, answers 404 `'Cannot find specified event center!'` when the id reads as an integer but no center has it, and answers 400 when the lookup fails. |
| Validation.CenterFoundPassesParamCheck | server/middleware/validation.js:147-171 | A parameter that finds a center also passes the parameter check. |
| Validation.StoredCenterPassesBothStages | server/middleware/validation.js:147-171 | Every stored center, addressed by its decimal id, passes both center stages. |
| UserController.InsertErrorMessage | server/controllers/user.js:42-44 | A refused insert always carries a non-empty message. |
| UserController.Masked | server/controllers/user.js:38-39 | The returned record carries the 20-character mask instead of the hash, and every other column as stored. |
| UserController.MaskVerifiesNothing | server/controllers/user.js:38-39 | The mask is not a hash: no password verifies against it. |
| UserController.PasswordTooShort | server/controllers/user.js:15-19 | The registration gate: the password is undefined or has fewer than 5 characters. |
| UserController.PasswordGateBoundary | server/controllers/user.js:15-20 | An absent password and a 4-character password are refused. A 5-character password passes. |
| UserController.CreateUser | server/controllers/user.js:14-46 | A password that is absent or shorter than 5 characters gets 400 and inserts nothing. Otherwise the reply is 201 exactly when username and email are present and free. Then exactly one record is added, with admin off, a hash that verifies the body's password, and username, email and fullname from the body. The reply holds the masked record and `Token(id, false)`. Any other outcome is 400 with the store unchanged. |
| UserController.LoginUser | server/controllers/user.js:54-78 | 200 exactly when the body's password verifies against the stored hash of the user with the body's username; the token carries that record's id and admin flag. Every other answer is the same 401 `'wrong password or username!'`, except for a known user with no password, who gets nothing. |
| UserController.LoginFailuresIndistinguishable | server/controllers/user.js:60-73 | An unknown username and a wrong password for a known user get the identical reply. |
| UserController.StoredPasswordLogsIn | server/controllers/user.js:60-68 | A record whose hash was made from p logs in with p and receives a token naming that record. |
| UserController.RegisterThenLogIn | server/controllers/user.js:14-78 | After a successful registration, logging in with the same body returns a token for the new id, without admin rights, equal to the registration token. |
| UserController.GetUser | server/controllers/user.js:86-101 | 200 with the caller's record, password masked and every other column as stored, exactly when the record exists; otherwise 400. The store is only read. |
| UserController.MergeProfile | server/controllers/user.js:114-120 | Each of fullname, description, tagline and picture takes the body's value when it is a non-empty string, and otherwise keeps its value. No other column changes. |
| UserController.MergeProfileIdempotent | server/controllers/user.js:114-120 | Applying the same update twice is applying it once. |
| UserController.MergeNeverClears | server/controllers/user.js:116-119 | No update can empty a profile column that holds text. |
| UserController.TaglineOnlyUpdate | server/controllers/user.js:116-119 | A body with only a non-empty tagline changes only the tagline. |
| UserController.ModifyUserProfile | server/controllers/user.js:109-133 | With no record for the caller: 403 `'you can only modify your own profile!'` and no change. Otherwise the merged record replaces the stored one, and the reply is 200 with it masked. |

## Left out

- JSON `null` and non-string body values. A body maps field names to strings. The `=== null` test of `createUser` (server/controllers/user.js:17) therefore cannot arise, and neither can a non-string `trim()` target.
- String lengths are counted in characters, not UTF-16 code units.
- `Text.Trim` follows the whitespace set of `String.prototype.trim` as given by ECMA-262, 2017 edition onwards. It does not model engines that use an older Unicode whitespace table.
- `parseInt` on a digit run so long that it overflows to `Infinity` (then `Number.isInteger` fails). This is floating point.
- bcrypt internals: the work factor, salt generation, the digest and its one-wayness, and timing. `Credentials.Hash` is a transparent stand-in that has only the two properties the rest of the model uses. The salt is a parameter of `CreateUser`.
- Credentials.HashVerifiesOnlyItsPassword: holds of the stand-in only. bcrypt uses just the first 72 bytes of a password. So when p is 72 or more bytes long, `compare(p + "x", hashSync(p))` is true, while the stand-in rejects it.
- jwt signing, `SECRET_KEY` and the 60-minute expiry. Only the token payload is modelled.
- Error shapes in the `.catch` handlers, including the `messsge` misspelling and the `err.errors[0]` access. In the model, lookups by username, email or id never fail. The only failures are a refused insert, which answers 400 with a stand-in message, and a failed center lookup.
- Persistence.Store.FindCenter: the strict reading of the id parameter is an assumed database behaviour. The source names no database. A real one may differ. For example, PostgreSQL's integer input accepts surrounding whitespace (`" 12"` would find center 12), and it rejects values beyond 32 bits (an 11-digit id would fail rather than find nothing).
- Validation.CheckCenterExists: a failed lookup answers an abstract 400. The handler as written reads `err.errors[0]` of the database error, which may itself throw, and then no response would be sent.
- Which insert constraints exist. The table schema is not part of this model. `Store.Insert` refuses an absent username or email and a duplicate username or email, checked in that order.
- An undefined username or email in a `where` clause is modelled as matching no record.
- `UserController.GetUser`: the associated events that `findById` includes are not modelled. The 400 message for a missing record is the runtime's TypeError text, which depends on the engine version.
- Masking writes the mask into the ORM instance in place (server/controllers/user.js:38-39, 94-95, 122-123). The model returns a masked copy instead. The stored record never changes, which is how the source behaves too, because the instance is not saved.
- A failed `update` in `modifyUserProfile` is an unchained promise and would send nothing. The store's update cannot fail in the model.
- The order `Object.keys` enumerates the body in is a parameter (`order`) of `TrimBodyKeys`.
- Validation.CheckBodyContains: when the second send throws, the error passes to the framework's error handling. The model records only that the stage threw (`threw`). It does not model what the framework's error handler then sends.
- Concurrency: the check-then-insert race between the uniqueness stages and `User.create`.
- `logoutUser` (server/controllers/user.js:142). It chains `send` on the result of `send` and has no modelled behaviour.
- The route table that chains these stages, the authentication middleware that sets `req.user`, and the client components are not part of this model.

## Findings

| source | as written | input that shows it | evidently intended | confidence | as-written member | corrected member |
|---|---|---|---|---|---|---|
| server/middleware/validation.js:37-45 | When exactly one required field is missing, `checkBodyContains` sends its 400 and still calls `next()`, so the next stage and the handler run on a request that lacks a required field. | Required fields `username` and `password`, body `{username: "bob"}`: one 400 is sent and `next()` is called once. | Stop at the first missing field with a single 400, and call `next()` only when every required field is present. | not executed | Validation.MissingPasswordStillCallsNext | Validation.RequireFields |

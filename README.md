# Authentication server handlers, modelled in Dafny

This project models the request-decision logic of a small Express/PostgreSQL
authentication backend (`server.js`). It covers three handlers:

- `POST /login` checks a username and password against the `users` table
  and issues a signed session token that expires after one hour.
- `POST /forgot-password/check` reports whether a username exists and
  whether the supplied admin code is the shared secret `"667"`.
- `POST /forgot-password/reset` repeats those two checks. It then hashes the
  new password and writes the hash into every row that has that name.

The database is an in-memory `users` table: a sequence of rows
`{id, name, password_hash}`, where `password_hash` may be NULL. Each query is
given a flag that says whether it reaches the store. A query that does not
reach the store is the rejected promise that each handler's `catch` turns
into `500 "Internal server error"`. The reset handler's SELECT and UPDATE
each have their own flag.

Request fields are JSON values (`Json.Value`): missing, `null`, a boolean,
an integer a JavaScript number holds exactly, or a string. This lets the
model follow the JavaScript semantics the handlers depend on for these
inputs:
- `!password` treats `undefined`, `null`, `false`, `0` and `""` as missing.
- `adminCode !== '667'` is a strict comparison, so the number `667` is a
  wrong code.
- bcrypt rejects a password that is not a string. The handler's `catch`
  turns that into a 500.
- The database driver sends `undefined`/`null` as SQL NULL, which matches no
  row. It sends any other scalar as its `toString()` text.
- PostgreSQL refuses a text parameter that contains U+0000. The query then
  fails, and the handler's `catch` answers 500.

bcrypt is a value `Hashing.Hasher(hash, compare)` of two function values.
`Hashing.Sound` states the one fact the round trip needs:
`compare(p, hash(p))` holds, and a hash is never empty. `Hashing.Binding`
states that a hash matches only its own password. The model assumes this
only for passwords of at most 72 UTF-8 bytes, the most bcrypt reads, that
contain no U+0000, which some bcrypt bindings treat as the end of the key
(`Hashing.WholeKey`). Only the lemmas about other passwords failing need
`Binding`. The signing secret
(`JWT_SECRET`) and the clock are parameters (`Server.Env`). A token is the
abstract value `Jwt.Token(claims, key)`, with claims
`{id, username, iat, exp}` and `exp = iat + 3600`.

`Server.Login` and `Server.Check` are functions of the table. They read it
and cannot change it. `Server.Database` is a class whose `users` field is the
table. Its method `ResetPassword` is the only operation that writes to the
table. Its postconditions give the whole new table in terms of the old one
(`Users.SetHash`). They also state the frame: only the `password_hash` of the
rows with the given name can change.

Modules, one per concern, from the bottom up:
- `wrappers.dfy`: `Option`.
- `json.dfy`: request field values, truthiness and query-parameter text.
- `hashing.dfy`: bcrypt.
- `jwt.dfy`: signing and reading tokens.
- `users.dfy`: the table, its SELECT and its UPDATE.
- `server.dfy`: the handlers and the lemmas relating them.

Points where the code's behaviour is easy to misread:
- A missing or empty `JWT_SECRET` makes `jwt.sign` throw inside the login
  handler's `try`. The result is a per-request `500 "Internal server error"`,
  not a fatal configuration error.
- The admin code is the literal `"667"` in both endpoints. It is not a
  configurable value.
- The code does not rely on usernames being unique. Login uses the first row
  the SELECT returns, and the reset's UPDATE writes every row with the name.
  The model makes no uniqueness assumption.
- A password that is present but not a string (a number or `true`) passes
  the `!password` test. When the name's first row has a hash, bcrypt then
  rejects the password, so the answer is 500, not 400.
- A reset to the empty password `""` succeeds, because bcrypt hashes it.
  After that, a login with `""` is always answered "Password is required".
  This follows from `Server.Login`'s first postcondition together with
  `Server.Database.ResetPassword`.

## Model

| member | source | states |
|---|---|---|
| `Json.NatText` | server.js:71 | The text the driver binds for a natural number is a non-empty string of decimal digits that spells the number, with no leading zero unless it is "0". |
| `Json.IntText` | server.js:71 | The text of an integer starts with '-' exactly when the integer is negative. The rest is decimal digits only, with no leading zero unless it is "0", and spells the magnitude. |
| `Json.IntTextInjective` | server.js:71 | Distinct integers bind distinct texts. |
| `Json.QueryTextAgrees` | server.js:71 | Two username fields bind the same parameter in these cases: two numbers only if they are equal, a string and a number only if the string is the number's text, two strings or two booleans only if they are equal, and a boolean and a string only if the string is "true" or "false" accordingly. A number and a boolean never bind the same text. A field binds SQL NULL exactly when it is missing or `null`. |
| `Users.Select` | server.js:71-77 | The SELECT's rows are exactly the table rows with the name. There are none exactly when no row has the name. When a first row with the name exists, it comes first, so `rows[0]` is that row. |
| `Users.SetHash` | server.js:165 | The UPDATE keeps the table's length. Each row with the name becomes the same row with `password_hash` set to the new hash. Every other row is unchanged. |
| `Users.SetHashKeepsFirstNamed` | server.js:165 | The UPDATE changes no name. So the first row with a name is the same row before and after, now carrying the new hash. |
| `Hashing.Utf8Length` | server.js:91 | The byte count that bcrypt's 72-byte limit is measured in. Its ensures is only a sanity bound: one to four bytes per character. |
| `Hashing.Utf8LengthAscii` | server.js:91 | An ASCII password takes one byte per character. |
| `Jwt.Sign` | server.js:96-100 | Signing succeeds exactly when the secret is set and non-empty. The token's `exp` is its `iat` plus one hour. |
| `Jwt.Verify` | server.js:96-100 | Reading a token yields only its own claims, only with the key it was signed with, and only before `exp`. |
| `Jwt.SignThenVerify` | server.js:96-100 | A signed token yields exactly `{id, username, iat = now, exp = now + 3600}`. It does so for the signing secret before expiry, and yields nothing for any other key or after the hour. |
| `Server.Authenticate` | server.js:77-101 | A falsy stored hash gives 500 "User account error - no password hash" before any compare. A non-string password gives 500. A compare mismatch gives 400 "Invalid credentials". A match with a missing or empty signing secret gives 500 "Internal server error". The result is 200 exactly when the hash is present, the compare matches and the secret is usable, and then the body is the token for that row's id and name. |
| `Server.Login` | server.js:57-106 | A falsy password gives 400 "Password is required", whatever the table and the store do. When the SELECT fails, because the store is unreachable or the name contains U+0000, the answer is 500 "Internal server error". A name that no row has gives 400 "Invalid credentials". Otherwise the answer is `Authenticate` on the first row with the name. |
| `Server.Check` | server.js:119-140 | A failed SELECT gives 500 `{false, "Internal server error"}`. An unknown name gives `{false, "Username doesn't exist"}` whatever the code. A known name with a code other than the string `"667"` gives `{false, "Wrong admin code"}`. Success holds exactly when the name exists and the code is `"667"`, and then the answer is `{true, "User found, admin code verified."}`. |
| `Server.Database.ResetPassword` | server.js:146-172 | When a check fails, reset answers exactly as `Check` does and leaves the table unchanged. This covers an unknown name whatever the code, and a wrong code. After both checks pass, it answers 500 and leaves the table unchanged when the new password is not a string or the UPDATE fails. Otherwise it answers `{true, "Password updated successfully!"}` and the table is `SetHash` of the old table with `hash(newPassword)`. Only the hash of rows with the name can change. |
| `Server.UnknownUserLooksLikeWrongPassword` | server.js:72-94 | A login for an unknown name and a login whose password fails the compare get the same response, 400 "Invalid credentials". |
| `Server.MissingUsernameFindsNoRow` | server.js:71-75 | A missing or `null` username matches no row, whatever the table. A login with a password gets 400 "Invalid credentials", and the reset check answers `{false, "Username doesn't exist"}`. |
| `Server.ResetThenLogin` | server.js:162-167 | After a reset with the right code to a non-empty password, logging in with that password returns the token for the first row with the name, carrying its id and name. |
| `Server.ResetThenOtherPasswordFails` | server.js:162-167 | After such a reset, any other non-empty password, the old one included, gets 400 "Invalid credentials". Both passwords must be whole bcrypt keys, and bcrypt must be binding. |
| `Server.AliceLogsIn` | server.js:57-106 | A worked example: "alice", stored with the hash of "hunter2", logs in with "hunter2" and gets her token. |
| `Server.AliceWrongPassword` | server.js:92-94 | In the same table, a wrong password for alice gets "Invalid credentials". |
| `Server.UnknownBob` | server.js:72-75 | In the same table, a login as the unknown user "bob" gets "Invalid credentials" too. |

## Left out

- Express setup, CORS, body parsing and `app.listen` (server.js:10-16, 108-113) are framework plumbing.
- Request bodies that are not objects, and fields that are arrays, objects or non-integer numbers, are not modelled.
- `Json.QueryText` does not model JSON integers beyond 2^53 - 1 in magnitude. `JSON.parse` rounds them to the nearest double, and the driver binds that double's text (2^60 binds "1152921504606847000"). `Json.Value` admits only integers up to 2^53 - 1 in magnitude, which a double holds exactly.
- `Json.QueryText` does not model lone UTF-16 surrogates in a string field, which the driver replaces with U+FFFD. A Dafny string holds only Unicode scalar values.
- The table may hold names that contain U+0000, which a PostgreSQL text column cannot store. Such a name is never found, because a parameter containing U+0000 fails the query.
- The pg pool is not modelled: its creation and configuration, the idle-client error hook that calls `process.exit`, and `testConnection` reassigning `pool` (server.js:19-54). These are I/O and resource management. Store failure is a per-query flag instead.
- SQL text and the query engine are not modelled. The SELECT returns rows in table order, because the statement has no `ORDER BY` and the order a real store returns is not fixed.
- A row's `name` is never NULL in the model. A NULL name would match no query and would leave every result unchanged.
- bcrypt internals are not modelled: salting, the cost factor 10, the hash format and constant-time comparison (server.js:91, 162). bcrypt is abstract, limited to the facts in `Hashing.Sound` and `Hashing.Binding`. Salting makes `bcrypt.hash` give a different string on each call, but the model hashes deterministically.
- `Server.ResetThenOtherPasswordFails` covers only passwords without U+0000 and of at most 72 UTF-8 bytes. bcrypt ignores everything after the 72nd byte, so two passwords that agree on their first 72 bytes match the same hash. Passwords with U+0000 are excluded conservatively, since some bcrypt bindings stop reading the key there.
- The JWT encoding, the HMAC and the header are not modelled (server.js:96-100). A token is an abstract value holding its claims and its key. The clock is the parameter `Env.now`, in whole seconds.
- Logging (`console.log`/`console.error`) is not modelled, because it has no effect on the responses.
- Concurrency between requests is not modelled, including any atomicity between check and reset. Each handler call is modelled on its own.

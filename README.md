# Register-Login account rules, modelled in Dafny

This is a model of the rules of a small Go user-account service. The rules cover:

- what registration, login, deletion, password change, username change and listing do to the `users` table;
- the input check on registration data;
- the `Authorization: Bearer <token>` gate in front of the protected routes;
- the decision sequence of the change-password and change-username HTTP handlers.

The model has one module per concern:

- `GoStrings` (`go_strings.dfy`): Go's byte-counting `len` and `strings.Split` with a one-character separator. `len` is the UTF-8 size. `Split` keeps Go's edge cases: `Split("")` is `[""]`, and empty pieces are kept. Lemmas state that joining the pieces gives back the string, that no piece holds the separator, and that there is one piece more than there are separators.
- `Bcrypt` (`bcrypt.dfy`): the hashing library as an opaque pair of total functions. `generate` stands for GenerateFromPassword and `compare` for CompareHashAndPassword. The only fact ever assumed is `RoundTrips`: a password matches its own hash. It appears as a `requires` of the lemmas that need it.
- `Accounts` (`accounts.dfy`): the table as a value of type `map<string, Account(email, hash)>`. The username is the key, so the UNIQUE constraint on username holds by construction. The UNIQUE constraint on email is `EmailsUnique`. Each SQL statement is a function on tables (`Insert`, `Remove`, `SetHash`, `Rename`, `Login`). The lemmas state what each statement keeps and changes, and how the statements combine with login.
- `Users` (`users.dfy`): class `Store`. Its `rows` field is the table and its `Valid()` is the UNIQUE invariant. It has one method per function of the `users` package, and each method states the new table in terms of the old one. The Postgres repository package defines the same AddUser, ValidateUser, DeleteUser and GetAllUsers. Only the text of the duplicate-user error differs. This one class models both packages.
- `Postgres` (`postgres.dfy`): `ValidateUserData`, the registration input check.
- `Middleware` (`middleware.dfy`): the bearer gate as a pure function. It takes the header text and the token validator, and returns `Reject(reason)` or `Forward(username claim)`.
- `Rest` (`rest.dfy`): the change-password and change-username handlers as methods on a `Store`.

Two facts about the code shape the model:

- Registration does not check its input. `ValidateUserData` exists, but no handler or store function calls it, so `Store.AddUser` accepts any input.
- Failed logins are not unified. The code answers "user not found" and "invalid password" separately, and `LoginResult` keeps the two apart.

`Store`'s constructor models the first start of the service, when `CREATE TABLE IF NOT EXISTS` creates an empty table. On a later start the statement keeps the rows already stored. No method depends on the table having started empty: each one needs only the UNIQUE invariant `Valid()`.

## Model

| member | source | states |
|---|---|---|
| GoStrings.Utf8LenBounds | internal/repository/postgres/user.go:14-18 | the byte length that `len` measures is at least the character count and at most four times it |
| GoStrings.Utf8LenAscii | internal/repository/postgres/user.go:14-18 | for ASCII text, the byte length equals the character count |
| GoStrings.Split | internal/middleware/middleware.go:19 | `strings.Split` always yields at least one part, even for the empty string |
| GoStrings.SplitJoin | internal/middleware/middleware.go:19 | splitting on the separator loses nothing: joining the parts gives back the header |
| GoStrings.SplitPiecesFree | internal/middleware/middleware.go:19 | no part produced by the split contains a space |
| GoStrings.SplitCount | internal/middleware/middleware.go:19-20 | the number of parts is the number of spaces plus one, so "exactly two parts" means "exactly one space" |
| GoStrings.SplitWithout | internal/middleware/middleware.go:19 | a string without a space is a single part |
| GoStrings.SplitAtFirst | internal/middleware/middleware.go:19 | the text before the first space is the first part; the rest splits independently |
| Middleware.BearerSplit | internal/middleware/middleware.go:19-25 | two parts with first part exactly "Bearer" holds iff the header is "Bearer", one space, and a token without spaces; the second part is then that token |
| Middleware.AuthMiddleware | internal/middleware/middleware.go:13-37 | an empty header is rejected as missing; any other header not of the bearer form is rejected as badly formatted; the validator gets exactly the token text and its failure rejects; otherwise the request is forwarded once with the validator's username claim |
| Middleware.RejectedShapes | internal/middleware/middleware.go:19-23 | a double space, the lower-case scheme "bearer" and a header with no token part are all rejected, whatever the validator says |
| Postgres.ValidateUserData | internal/repository/postgres/user.go:13-24 | succeeds iff the username has at least 3 bytes, the password at least 8 bytes and the email contains '@'; a reported error names a check that fails |
| Postgres.FirstFailureReported | internal/repository/postgres/user.go:14-22 | checks run username, then password, then email; a short username is reported whatever the other fields are, and a short password whatever the email is |
| Postgres.CharactersSuffice | internal/repository/postgres/user.go:13-24 | 3 characters of username, 8 of password and an '@' always pass |
| Postgres.BytesNotCharacters | internal/repository/postgres/user.go:14-16 | any username of two non-ASCII characters has at least 4 bytes and so passes the username check, because the limit counts bytes |
| Accounts.InsertAddsOneRow | internal/repository/postgres/user.go:46-57 | when neither the username nor the email is in use, the insert adds exactly the row (username, email, hash), keeps every other row and keeps emails unique |
| Accounts.SecondRegistrationTaken | internal/repository/postgres/user.go:28-44 | after a registration, the existence query finds any later registration with the same username or the same email |
| Accounts.RegisterThenLogin | internal/users/user.go:40-82 | after a registration, login with the same password succeeds, assuming only that bcrypt accepts a password against its own hash |
| Accounts.RemoveOnlyNamed | internal/repository/postgres/user.go:84-96 | delete removes only the named row, is a no-op when that row is absent, and keeps emails unique |
| Accounts.RemoveThenLogin | internal/users/user.go:49-61 | after a delete, login for that username reports "user not found" |
| Accounts.SetHashOnlyHash | internal/users/user.go:85-105 | the password update replaces only the named row's hash; its email, every other row and the set of usernames are unchanged; no-op for an absent user |
| Accounts.SetHashThenLogin | internal/users/user.go:85-105 | after the update the new password logs in, and every other account logs in exactly as before |
| Accounts.RenameMovesRow | internal/users/user.go:108-123 | renaming to a free name moves the row unchanged to the new key, keeps all other rows and keeps emails unique; no-op for an absent current name |
| Accounts.RenameThenLogin | internal/users/user.go:108-123 | after a rename the account logs in under the new name exactly as it did under the old one, and the old name is no longer found |
| Accounts.ListingRoundTrip | internal/repository/postgres/user.go:99-126 | a listing with one matching entry per row and no username twice determines the table: rebuilding it entry by entry gives the table back |
| Users.Store.constructor | internal/database/init_database.go:37-53 | on first start the table is empty and satisfies the UNIQUE constraints of its username and email columns |
| Users.Store.AddUser | internal/users/user.go:16-47 | fails with AlreadyExists iff some row has the username or the email, and then leaves the table unchanged; otherwise inserts (username, email, hash of password); the UNIQUE invariant is kept |
| Users.Store.DeleteUser | internal/users/user.go:49-61 | the table loses the named row, if present, and nothing else; always succeeds; the invariant is kept |
| Users.Store.ValidateUser | internal/users/user.go:63-83 | reports "user not found" iff there is no row, "invalid password" iff the stored hash does not match, success otherwise; reads only |
| Users.Store.UpdateUserPassword | internal/users/user.go:85-105 | the named row's hash becomes the hash of the new password and nothing else changes; a no-op success for an absent user |
| Users.Store.UpdateUserUsername | internal/users/user.go:108-123 | fails with a UNIQUE violation, table unchanged, iff the current name has a row and the new name is another existing row; otherwise renames exactly that row (no-op when absent) |
| Users.Store.GetAllUsers | internal/users/user.go:125-152 | returns one entry per row, in some order, each with the row's username, email and stored hash, and no username twice |
| Rest.UpdateUserPasswordHandler | internal/rest/handlers.go:105-139 | 400 iff a field is empty, 404 iff the user is absent, 401 iff the current password does not match, and the table is unchanged in all three; on 204 only the user's hash becomes the hash of the new password; no other status (in particular no 500) is written |
| Rest.UpdateUserUsernameHandler | internal/rest/handlers.go:160-170 | 400, table unchanged, iff username or new_username is empty; 500, table unchanged, iff the store refuses the rename; otherwise 204 with the row renamed; no other status is written |

## Left out

- Database driver failures are not modelled: the error returns of `QueryRow`, `Exec`, `Query`, `Scan` and `rows.Err`. They come from I/O outside the model. So every store method here succeeds except on the rule-based refusals: a duplicate on registration and a UNIQUE violation on rename.
- Hashing failures are not modelled, because `Hasher.generate` is total. GenerateFromPassword fails when the random source fails and, in recent versions of the bcrypt package, for every password longer than 72 bytes. The model therefore leaves out the error branch of UpdateUserPassword and the 500 answer that the change-password handler then gives.
- Accounts.RegisterThenLogin: it says nothing about passwords that GenerateFromPassword refuses. For those, `RoundTrips` does not hold. AddUser discards the error and inserts the nil hash it got back, then reports success. The account is created, but its stored password is empty or missing, so that password never logs in. (Depending on how the driver encodes a nil byte slice, the insert may instead break the NOT NULL constraint. That would be a driver failure, which is left out above.) Users.Store.AddUser stores `generate(password)` for every password, so the model does not capture such accounts.
- Accounts.SetHashThenLogin: it does not cover passwords that GenerateFromPassword refuses, for the same reason. The source's UpdateUserPassword returns the error without changing the table, and the handler answers 500.
- bcrypt salting is not modelled: `generate` is a deterministic function. So two hashes of one password are equal here, where the real library makes them differ.
- Nothing about bcrypt is assumed beyond `RoundTrips`. In particular, it is not assumed that a wrong password fails to match.
- The token validator is a parameter. Its `jwt` package, with token signing, expiry and claims, is not part of this model. A claim value is taken to be a string; Go stores whatever dynamic value the claim holds.
- Users.Store.AddUser: the race between the existence query and the insert is not modelled, because the model is sequential. With no concurrent writer the insert cannot break the UNIQUE constraints, so that error path is left out.
- The change-password handler issues its own UPDATE statement. It is the same statement as `UpdateUserPassword`, so the handler model calls that store method.
- Not modelled because they are I/O plumbing: HTTP routing and method checks, JSON decoding errors (400), response writing, logging, configuration loading and database connection.
- The `jwt` column is not modelled, because no code shown writes it.

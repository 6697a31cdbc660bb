# Auth and CRUD decision logic of a users/movies backend, in Dafny

This project models the decision logic of a small Express/TypeORM service
that stores users and movies: the closed role registry, the access-token
gate, the two entities with their validation rules and column widths, and
the request handlers of the user and movie controllers as transitions of an
in-memory table with a status result.

- `roles.dfy` (`Roles`): the two role names and the exact-match `Verify`.
- `jwt.dfy` (`Jwt`): the token library as an abstract token, its claims
  plus the secret it was signed with, or an unsigned token (`alg: none`). A
  signed token verifies exactly when the secret matches, the secret is
  non-empty, and the current second is before `exp` (section 4.1.4 of
  RFC 7519). An unsigned token verifies exactly when no usable secret is
  configured and the current second is before `exp`.
- `authorization.dfy` (`Authorization`): the `verifyToken` gate as a
  function returning `Halt(403)`, `Halt(401)` or `Next`.
- `user_entity.dfy`, `movie_entity.dfy`: the records, their constructors,
  the `@Length` rules (users) and the `varchar` widths.
- `storage.dfy`, `user_repository.dfy`, `movie_repository.dfy`: the
  contract assumed of TypeORM and the database, as classes holding a
  `map<nat, Row>` and the next key of the id sequence. `find`/`findOne` on
  `User` return only rows whose `deletedAt` is unset. `save` inserts under
  a fresh key, or writes back a loaded row and refreshes `updatedAt`.
  `softDelete` sets `deletedAt` and `updatedAt` to the current time. A
  write that breaks NOT NULL or the unique username fails and changes
  nothing. On PostgreSQL a string longer than its `varchar(n)` fails the
  same way, unless every character past `n` is a space: then it is cut to
  `n` characters and stored.
- `http.dfy`: status codes and response bodies. The bodies with a user in
  them leave out its password, except the validation-error lists: each
  error carries the validated user, password included.
- `user_controller.dfy`, `movie_controller.dfy`: one method per handler.
  The handler's effect on the table is stated in its `ensures`, and its
  result is a `Reply`: every response the handler writes, in order.
- `scenarios.dfy`: short request sequences on fresh tables that exhibit
  the behaviours below from the handlers' contracts.

Time is an integer number of seconds passed in as `now`. The signing secret
(`process.env.JWT_SECRET`) is a parameter `secret: Option<string>`. A body
or query field that the request omits is `None`.

### Behaviour the model reproduces

These are modelled as the code has them, not corrected:

- `create` sends 400 for a missing field or an unregistered role and does
  not return. The validator and the table then decide. A role such as
  `"SuperAdmin"` (10 characters, within `@Length(4, 50)`) is saved
  (`Scenarios.InvalidRoleIsPersisted`). The movie `create` does the same
  for an empty title (`Scenarios.EmptyTitleIsPersisted`). In a `Reply` the
  client receives the first response.
- `login` puts the username into the token's `role` claim
  (`UserController.IssueResponse`, `Scenarios.RoleClaimIsUsername`).
- `login` matches the password in plain text against the stored column.
- The unique username constraint covers soft-deleted rows. A deleted
  user's name cannot be registered again: the insert fails and the handler
  answers 500 (`Scenarios.DeletedUsernameStaysTaken`).
- The validator admits usernames of up to 100 characters, but the column
  holds 50. A 51-character name passes validation and fails in the store,
  which gives 500 (`Scenarios.LongUsernameRefusedByTable`).
- `Movie` has no delete-date column. TypeORM refuses `softDelete` on such an
  entity (`MissingDeleteDateColumnError`), so deleting an existing movie
  ends in the `catch` with 500 and changes nothing
  (`Scenarios.ExistingMovieIsNotDeleted`). The 204 branch of the movie
  `delete` handler is unreachable in this model.
- `Movie` has no validator decorators, so `validate` reports nothing and
  the 422 branch of the movie `create` handler is unreachable. Only the
  store bounds the movie columns.
- The 422 of `create` and the 400 of `edit` send class-validator's error
  list, and each error's `target` is the whole validated user. For
  `create` it holds the submitted password
  (`Scenarios.CreateEchoesSubmittedPassword`). For `edit` it is the row just
  loaded with all its columns, so the stored plaintext password is sent
  back to the client (`Scenarios.EditEchoesStoredPassword`).
- `get` and `getById` on users send, besides `id` and `username`, a
  `createdAt` and an `updatedAt` equal to the time of the request. These
  come from `new User()`, which TypeORM calls to build each loaded row,
  and not from the row (`Scenarios.ListingShowsLoadTime`).
- A username of 50 letters plus a space passes validation and is answered
  201 with the name as sent, but the table keeps it cut to 50 letters, so a
  login with the name as registered answers 404
  (`Scenarios.PaddedUsernameCannotLogIn`).
- With `JWT_SECRET` unset or empty, the gate lets through any unsigned
  token that is not yet expired, whatever claims it carries. A forged
  Admin token passes (`Authorization.NoSecretAdmitsOnlyUnsigned`,
  `Authorization.NoSecretForgedAdminPasses`).
- `sub` is the numeric user id. Section 4.1.2 of RFC 7519 asks for a
  string, and the library does not check this.

### Assumptions about the libraries

- TypeORM 0.2, the version whose `findOne(id, options)` the handlers call.
- TypeORM, `find`/`findOne`: soft-deleted `User` rows are skipped because
  of the `@DeleteDateColumn`. `Movie` rows are never skipped. Each loaded
  row is built with `new User()` (or `new Movie()`) and then given the
  selected columns.
- The database is PostgreSQL (the `timestamp with time zone` columns). A
  `varchar(n)` column refuses a longer string unless the excess is all
  spaces, which it cuts off. Values compare with every character counted,
  trailing spaces included.
- TypeORM, `where`: an undefined value is compared as SQL NULL and matches
  no row. As a result, a movie query that omits one of `director`, `genre`
  and `title` lists nothing.
- TypeORM, `save` on a loaded entity: if no column changed, no UPDATE is
  issued and `updatedAt` stays as it was.
- class-validator before 0.14, with its default options: `@Length(min,
  max)` fails on a missing value; an entity with no decorators gets no
  errors (from 0.14 on, `forbidUnknownValues` reports one); every error
  carries `target` and `value`.
- jsonwebtoken 8 (up to 8.5.1), the release line of the TypeORM 0.2 era:
  `sign` with an undefined or empty secret throws, so login answers 500.
  `verify` with such a secret and no `algorithms` option accepts only the
  algorithm `none`. It refuses every signed token and accepts an unsigned
  one. With a usable secret an unsigned token is refused. There is no
  clock tolerance, and `iat` is not checked. From jsonwebtoken 9 on, an
  unsigned token is refused whatever the secret is.
- Express/Node: header names are stored in lower case, and the gate looks up
  `x-access-token`.

## Model

| member | source | states |
|---|---|---|
| `Roles.Verify` | src/helpers/roles.ts:6-8 | total, no state; true exactly for the members of the `ROLES` set |
| `Roles.BothRolesVerify` | src/helpers/roles.ts:1-8 | "Admin" and "User" are accepted |
| `Roles.NearMissesRejected` | src/helpers/roles.ts:7 | comparison is exact and case-sensitive: "admin", "ADMIN", "user", " User", "User ", "" and "SuperAdmin" are rejected |
| `Roles.ExactlyTwoRoles` | src/helpers/roles.ts:1-4 | the role set has exactly two distinct members, and nothing else verifies |
| `Jwt.Sign` | src/controllers/UserController.ts:253-257 | signing succeeds iff the secret is set and non-empty; the token carries the given sub and role, `iat` = now, `exp` = now + expiresIn, and the signing secret |
| `Jwt.Verify` | src/helpers/authorization.ts:12 | verification succeeds iff either the secret is usable and the header holds a well-formed token signed with it, or no usable secret is set and the header holds an unsigned token; and now < exp. It then yields the token's claims |
| `Jwt.SignThenVerify` | src/controllers/UserController.ts:253-257 | a signed token verifies to its own claims before `iat + expiresIn` and is expired from that second on |
| `Jwt.WrongSecretRejected` | src/helpers/authorization.ts:12 | a token signed under another secret never verifies, whatever its claims |
| `Authorization.VerifyToken` | src/helpers/authorization.ts:4-18 | exactly one outcome per request: 403 "No access token provided." iff the header is absent or empty, 401 "Unauthorized." iff present but rejected, `next` (no response, payload dropped) iff accepted |
| `Authorization.GateAdmitsExactlyLiveTokens` | src/helpers/authorization.ts:11-17 | the request passes iff the header carries either a token signed with the configured usable secret, or an unsigned token when no usable secret is set, whose `exp` is after `now`; otherwise it is 403 or 401, and these two differ |
| `Authorization.GateReadsOnlyAccessHeader` | src/helpers/authorization.ts:5 | two requests that agree on `x-access-token` get the same decision |
| `Authorization.IssuedTokenAdmittedUntilExpiry` | src/helpers/authorization.ts:12-13 | a token issued at t with lifetime L passes at every second before t + L and gets 401 from then on |
| `Authorization.NoSecretAdmitsOnlyUnsigned` | src/helpers/authorization.ts:12-13 | with no usable secret configured, a request passes iff it carries an unsigned token before its `exp`; no signed token passes |
| `Authorization.NoSecretForgedAdminPasses` | src/helpers/authorization.ts:12-13 | with no usable secret, an unsigned token claiming role "Admin" is let through |
| `Storage.StoredVarchar` | src/entities/User.ts:27 | the value a `varchar(n)` keeps: at most n characters and a prefix of what was written; unchanged when within n, exactly n when longer |
| `Storage.AcceptedValueLosesOnlySpaces` | src/entities/User.ts:27 | a value the column accepts is the kept value followed by spaces only |
| `UserEntity.NewUser` | src/entities/User.ts:57-63 | username, password and role stored as given; createdAt and updatedAt set to now; id and deletedAt unset |
| `UserEntity.NewUserIsLive` | src/entities/User.ts:53-62 | a new user is live and has createdAt = updatedAt |
| `UserEntity.FailingProperties` | src/entities/User.ts:27-43 | no failing property iff 5 ≤ \|username\| ≤ 100, 4 ≤ \|password\| ≤ 100 and 4 ≤ \|role\| ≤ 50 (missing values fail); each failing property is listed, and only those |
| `UserEntity.Validate` | src/controllers/UserController.ts:115 | `validate(user)`: no errors iff the user is valid; one error per failing property, in order, each with the whole user as `target` and the property's value |
| `UserEntity.FailedValidationCarriesPassword` | src/controllers/UserController.ts:115-117 | whenever validation fails, the first error's target holds the user's password |
| `UserEntity.Stored` | src/entities/User.ts:27-43 | the row kept for a write: an accepted user becomes a row within all widths, a user within widths is kept as is, and a valid user stays valid with password and role unchanged |
| `UserEntity.ValidFitsIffUsernameFits` | src/entities/User.ts:27-43 | a valid user fits the columns iff its username fits `varchar(50)`: the validator already bounds password and role by their widths |
| `UserEntity.ValidatorWiderThanUsernameColumn` | src/entities/User.ts:27-28 | some user passes the validator and is refused by the username column |
| `UserEntity.PaddedUsernameIsCut` | src/entities/User.ts:27-28 | some valid user is accepted by the table under a username other than the one it sent |
| `UserEntity.SoftDeleted` | src/entities/User.ts:53-55 | soft deletion sets deletedAt (and updatedAt) to now, makes the row not live, and keeps every other field |
| `MovieEntity.NewMovie` | src/entities/Movie.ts:39-44 | title, description, director and genre stored as given; id unset |
| `MovieEntity.Validate` | src/entities/Movie.ts:11-45 | the entity declares no validator, so validation never reports an error |
| `MovieEntity.Stored` | src/entities/Movie.ts:15-31 | the row kept for an insert: an accepted movie becomes a row within all widths, one within widths is kept as is; id and genre unchanged |
| `MovieEntity.OnlyStorageBoundsTitle` | src/entities/Movie.ts:15-19 | a 51-character title passes validation and is refused by the `varchar(50)` column |
| `UserRepository.Rejection` | src/entities/User.ts:19-43 | a write is accepted iff every column is set and fits its width and no other row, deleted or live, holds the username as it would be stored |
| `UserRepository.KeepsDeletedTransitive` | src/entities/User.ts:53-55 | "deleted rows stay deleted and unchanged, nothing is removed" composes across handler calls |
| `UserRepository.DeletedUsernameBlocks` | src/entities/User.ts:19 | the unique constraint is not scoped to live rows: a deleted row's username blocks any new insert of it |
| `UserRepository.CredentialsMatchAtMostOne` | src/controllers/UserController.ts:243-246 | with unique usernames at most one live row matches a username and password |
| `UserRepository.UserTable.constructor` | src/entities/User.ts:21-22 | an empty table whose generated ids start at 1 |
| `UserRepository.UserTable.Find` | src/controllers/UserController.ts:38-40 | exactly the live rows |
| `UserRepository.UserTable.FindOne` | src/controllers/UserController.ts:73-75 | the row with that key iff it is live, else nothing |
| `UserRepository.UserTable.FindByCredentials` | src/controllers/UserController.ts:243-246 | nothing iff no live row has both values (a missing value matches no row); otherwise such a row |
| `UserRepository.UserTable.Save` | src/controllers/UserController.ts:121 | unchanged entity: no write; broken constraint: failure and no change; new entity: its stored form under the next key; loaded entity: its stored form written back with updatedAt = now; the result is the entity as sent; table integrity kept |
| `UserRepository.UserTable.SoftDelete` | src/controllers/UserController.ts:211 | only the row with that key gets deletedAt and updatedAt = now; table integrity kept |
| `UserController.Summary` | src/controllers/UserController.ts:39 | id and username from the row; createdAt and updatedAt are the load time, as `new User()` stamps them |
| `UserController.Public` | src/controllers/UserController.ts:122 | every property of the saved user except the password |
| `UserController.Get` | src/controllers/UserController.ts:35-43 | 200 with exactly the id/username pairs of the live users, each with both dates equal to the time of the request |
| `UserController.GetById` | src/controllers/UserController.ts:66-86 | 200 with id and username of the live user with that id and both dates equal to the time of the request, else 404 "User not found" |
| `UserController.CreateWarnings` | src/controllers/UserController.ts:105-112 | exactly one 400 for a missing or empty field and one 400 for an unregistered role, each iff its check fails, and the field 400 comes first when both are sent |
| `UserController.Create` | src/controllers/UserController.ts:100-128 | after the 400s (no return): if invalid, 422 with the validation errors, each holding the submitted user and its password, and no change; 500 and no change if the store refuses; else 201 with the user as sent minus password, under a fresh id, and its stored form in the table; deleted rows untouched |
| `UserController.Edit` | src/controllers/UserController.ts:149-179 | unknown or deleted id: 404; only the username changes; invalid: 400 with errors whose target is the loaded row with the new username and its stored password, nothing saved; refused by store: 500; else 204 with the stored form and updatedAt = now when something changed |
| `UserController.Delete` | src/controllers/UserController.ts:199-218 | live user: soft-deleted, 204; otherwise 404 and no change; afterwards the id is never live, so a second delete answers 404 |
| `UserController.LoginWarnings` | src/controllers/UserController.ts:238-241 | a bare 404, without return, iff username or password is missing or empty |
| `UserController.IssueResponse` | src/controllers/UserController.ts:253-259 | `{auth: true, token}` whose claims are sub = id, role = username, exp = now + 300; 500 without a usable secret |
| `UserController.Login` | src/controllers/UserController.ts:233-264 | no live user with that username and plaintext password: 404 "Invalid username or password."; otherwise the token for the one matching user |
| `UserController.Logout` | src/controllers/UserController.ts:280-287 | always 200 `{auth: false, token: null}`; reads and changes no state |
| `UserController.LoginTokenPassesGateFor300Seconds` | src/controllers/UserController.ts:253-257 | a token from login passes `verifyToken` for exactly 300 seconds, then gets 401 |
| `MovieRepository.Rejection` | src/entities/Movie.ts:15-37 | an insert is accepted iff every column is set and title, description and director fit `varchar(50)`, `varchar(250)` and `varchar(50)` |
| `MovieRepository.MovieTable.constructor` | src/entities/Movie.ts:12-13 | an empty table whose generated ids start at 1 |
| `MovieRepository.MovieTable.Find` | src/controllers/MovieController.ts:40-43 | exactly the rows whose director, genre and title equal the query values |
| `MovieRepository.MovieTable.FindOne` | src/controllers/MovieController.ts:76-78 | the row with that key, if any (there are no deleted rows to skip) |
| `MovieRepository.MovieTable.Save` | src/controllers/MovieController.ts:121 | refused insert: failure, no change; else the movie as sent with its new id, and its stored form under the next key |
| `MovieRepository.MovieTable.SoftDelete` | src/controllers/MovieController.ts:160 | always refused (no delete-date column), nothing changes |
| `MovieController.Get` | src/controllers/MovieController.ts:34-46 | 200 with exactly the movies matching director, genre and title, all five fields |
| `MovieController.GetById` | src/controllers/MovieController.ts:69-89 | 200 with the movie if the id exists, else 404 "Movie not found" |
| `MovieController.CreateWarnings` | src/controllers/MovieController.ts:107-110 | a bare 400, without return, iff title or description is missing or empty |
| `MovieController.Create` | src/controllers/MovieController.ts:102-128 | after the 400: 500 and no change if the store refuses; else 201 with the movie as sent, including its new id, and its stored form in the table |
| `MovieController.Delete` | src/controllers/MovieController.ts:148-167 | unknown id: 404; existing id: 500 because soft delete is refused; the table never changes |
| `Scenarios.InvalidRoleIsPersisted` | src/controllers/UserController.ts:110-121 | role "SuperAdmin" yields 400 "Invalid role." first, then 201, and the row holds role "SuperAdmin" |
| `Scenarios.MissingFieldIsNotStored` | src/controllers/UserController.ts:106-119 | a missing password yields 400, then 422 with one error on "password" whose target is the submitted user; nothing stored |
| `Scenarios.DeleteTwice` | src/controllers/UserController.ts:205-213 | delete answers 204, the same delete again 404, and getById 404 |
| `Scenarios.DeletedUsernameStaysTaken` | src/entities/User.ts:19 | registering a soft-deleted username again answers 500 and adds no row |
| `Scenarios.LongUsernameRefusedByTable` | src/entities/User.ts:27-28 | a 51-character username passes validation, the store refuses it: 500, nothing stored |
| `Scenarios.PaddedUsernameCannotLogIn` | src/controllers/UserController.ts:114-123 | 50 letters plus a space: 201 with the name as sent, the row holds the 50 letters, and login with the name as sent answers 404 |
| `Scenarios.CreateEchoesSubmittedPassword` | src/controllers/UserController.ts:114-118 | a 3-character password is answered 422 with an error whose target holds that password |
| `Scenarios.EditEchoesStoredPassword` | src/controllers/UserController.ts:157-169 | renaming to "ab" is answered 400 with an error whose target is the stored row, password "secret" included |
| `Scenarios.ListingShowsLoadTime` | src/controllers/UserController.ts:35-42 | a user created at 1000 and listed at 2000 is listed with both dates 2000 |
| `Scenarios.WrongPasswordIsNotFound` | src/controllers/UserController.ts:243-251 | login with an existing username and a wrong password answers 404 with no token |
| `Scenarios.RoleClaimIsUsername` | src/controllers/UserController.ts:253-257 | an Admin's token carries sub = 1, role = "alice" (the username) and exp = iat + 300 |
| `Scenarios.ExistingMovieIsNotDeleted` | src/controllers/MovieController.ts:154-162 | deleting an existing movie answers 500 and the movie is still found |
| `Scenarios.EmptyTitleIsPersisted` | src/controllers/MovieController.ts:108-123 | an empty title yields 400 first, then 201, and the movie is stored |

## Left out

- Logging (src/shared-kernel/Logger.ts): console output only; every `Logger` call is dropped.
- Route wiring (src/routes/index.ts) is not part of this model. There,
  `verifyToken` is applied to no route, and no `/users/login` or
  `/users/logout` route is registered. The API documentation names the
  token header `auth` (src/infrastructure/server/index.ts:47), not
  `x-access-token`.
- Bootstrap, dotenv/argv loading and ORM connection settings
  (src/index.ts, src/infrastructure/environments/index.ts, ormconfig.js):
  process lifecycle and I/O. The secret is a parameter instead.
- HMAC signing and base64url encoding of tokens: a foreign library. It is
  replaced by the abstract token, so a signed token cannot be forged by
  construction. Unsigned tokens are modelled.
- `Jwt.Verify`: an unsigned token carries the same claims as a signed one,
  `exp` included. A payload without `exp` that 8.x would accept at any
  time, and payloads with other claims, are not represented.
- The `catch` branches reached by a database that is down or by SQL errors
  other than NOT NULL, `varchar` width and the unique username.
- What Express does when a handler writes a second response after the
  first (it throws, and the `catch` tries a 500 that throws again). A
  `Reply` lists every response written in the normal flow; the client
  receives the first one.
- JSON values in a body or query that are not strings (numbers, arrays),
  and ids beyond JavaScript's exact integer range in `Number(req.params.id)`.
- The members of the `Genre` enum (src/entities/Genre.ts is not part of
  this model) and the database's rejection of an unknown genre label.
- The order of rows in a list: lists are modelled as sets.
- Millisecond precision of `new Date()`, and any clock skew between the two
  `new Date()` calls. One `now` in seconds serves the whole request.
- The gaps a failed insert may leave in the id sequence: a failed write
  leaves the sequence as it was.
- Interleaving of concurrent requests at each `await`: every handler is
  one atomic step on the table. Two overlapping `DELETE /users/1` can both
  pass `findOne` and both answer 204 (src/controllers/UserController.ts:205-213), and two
  overlapping edits race the same way (:157-172). "A second delete answers
  404" holds for requests that do not overlap.
- The `constraints` messages and the empty `children` of each validation
  error: only `target`, `property` and `value` are modelled.
- `UserEntity.HasLength`: counts every character. validator.js's
  `isLength` does not count the variation selectors U+FE0E and U+FE0F,
  so a string padded with them is valid there at more than its maximum
  (and may then be refused or cut by the column, which counts them).
- `UserRepository.UserTable.Save`: a loaded entity must still be present in
  the table. The handlers only save rows they have just loaded, and inserting
  under a caller-chosen id is not modelled.
- `UserController.Edit`: does not state that `updatedAt` never goes
  backwards, because that holds only for a monotonic clock, and the clock is
  a parameter.

/** The handlers of src/controllers/UserController.ts over a `UserTable`.
    Each handler returns the responses it writes, in order, instead of
    writing them to `res`. Where the source sends a 400 (or 404) without
    returning, the handler carries on and the reply holds every later
    response too; the client receives the first. */
module UserController {
  import opened Wrappers
  import opened Storage
  import opened Http
  import opened UserEntity
  import opened UserRepository
  import Roles
  import Jwt
  import Authorization

  /** `expiresIn: 300` at login. */
  const TokenLifetime: int := 300

  const UserNotFoundMessage: string := "User not found"
  const InvalidParametersMessage: string := "Invalid parameters passed to request."
  const InvalidRoleMessage: string := "Invalid role."
  const InvalidCredentialsMessage: string := "Invalid username or password."

  datatype CreateBody = CreateBody(username: Option<string>, password: Option<string>, role: Option<string>)

  datatype LoginBody = LoginBody(username: Option<string>, password: Option<string>)

  /** A row as `select: ['id', 'username']` loads it at time `now`: the two
      selected columns, and the two dates that `new User()` stamps on the
      loaded object instead of the row's own. */
  function Summary(u: User, now: Time): (s: UserSummary)
    ensures s.id == u.id && s.username == u.username
    ensures s.createdAt == NewUser(None, None, None, now).createdAt
    ensures s.updatedAt == NewUser(None, None, None, now).updatedAt
  {
    UserSummary(u.id, u.username, Some(now), Some(now))
  }

  /** `const { password: psw, ...formattedUser } = createdUser`: every
      property but the password. */
  function Public(u: User): (p: UserPublic)
    ensures p.id == u.id && p.username == u.username && p.role == u.role
    ensures p.createdAt == u.createdAt && p.updatedAt == u.updatedAt && p.deletedAt == u.deletedAt
  {
    UserPublic(u.id, u.username, u.role, u.createdAt, u.updatedAt, u.deletedAt)
  }

  /** `get` at time `now`: the id and username of every live user, each
      with both dates set to the load time. */
  method Get(table: UserTable, now: Time) returns (reply: Reply)
    ensures |reply| == 1 && reply[0].status == Ok && reply[0].body.UserList?
    ensures forall s :: s in reply[0].body.users <==>
      exists k :: LiveIn(table.rows, k) && s == Summary(table.rows[k], now)
  {
    var users := table.Find();
    reply := [Response(Ok, UserList(set u | u in users :: Summary(u, now)))];
  }

  /** `getById` at time `now`: the id and username of the live user with that
      id, with both dates set to the load time; or 404. */
  method GetById(table: UserTable, id: nat, now: Time) returns (reply: Reply)
    ensures LiveIn(table.rows, id) ==> reply == [Response(Ok, UserDetail(Summary(table.rows[id], now)))]
    ensures !LiveIn(table.rows, id) ==> reply == [Response(NotFound, Text(UserNotFoundMessage))]
  {
    var user := table.FindOne(id);
    if user.None? {
      reply := [Response(NotFound, Text(UserNotFoundMessage))];
      return;
    }
    reply := [Response(Ok, UserDetail(Summary(user.value, now)))];
  }

  /** The 400 answers `create` writes and then does not return from: one when
      a field is missing or empty, one when the role is not registered. */
  function CreateWarnings(b: CreateBody): (warnings: Reply)
    ensures forall i | 0 <= i < |warnings| :: warnings[i].status == BadRequest
    ensures Response(BadRequest, Text(InvalidParametersMessage)) in warnings <==>
      !(Truthy(b.username) && Truthy(b.password) && Truthy(b.role))
    ensures Response(BadRequest, Text(InvalidRoleMessage)) in warnings <==>
      !(b.role.Some? && Roles.Verify(b.role.value))
    ensures |warnings| ==
      (if Truthy(b.username) && Truthy(b.password) && Truthy(b.role) then 0 else 1)
      + (if b.role.Some? && Roles.Verify(b.role.value) then 0 else 1)
    ensures !(Truthy(b.username) && Truthy(b.password) && Truthy(b.role)) ==>
      warnings[0] == Response(BadRequest, Text(InvalidParametersMessage))
  {
    (if Truthy(b.username) && Truthy(b.password) && Truthy(b.role) then []
     else [Response(BadRequest, Text(InvalidParametersMessage))])
    + (if b.role.Some? && Roles.Verify(b.role.value) then []
       else [Response(BadRequest, Text(InvalidRoleMessage))])
  }

  /** `create`. Presence and role checks only answer 400; what decides is the
      validator (422 with its errors, each holding the submitted user and its
      password; nothing stored) and then the table (a refused insert ends in
      the `catch`, 500). Otherwise the user is inserted under a fresh key
      and returned without its password, 201; the row holds its stored form. */
  method Create(table: UserTable, b: CreateBody, now: Time) returns (reply: Reply)
    requires table.Valid()
    modifies table
    ensures table.Valid()
    ensures old(table.AllValidated()) ==> table.AllValidated()
    ensures KeepsDeleted(old(table.rows), table.rows)
    ensures var user := NewUser(b.username, b.password, b.role, now);
      if !IsValid(user) then
        && reply == CreateWarnings(b) + [Response(UnprocessableEntity, UserInvalid(Validate(user)))]
        && (forall e | e in reply[|reply| - 1].body.userErrors :: e.target == user && e.target.password == b.password)
        && table.rows == old(table.rows) && table.nextId == old(table.nextId)
      else if Rejection(old(table.rows), user, None).Some? then
        && reply == CreateWarnings(b) + [Response(InternalServerError, Empty)]
        && table.rows == old(table.rows) && table.nextId == old(table.nextId)
      else
        var saved := user.(id := Some(old(table.nextId)));
        && reply == CreateWarnings(b) + [Response(Created, UserCreated(Public(saved)))]
        && table.rows == old(table.rows)[old(table.nextId) := Stored(saved)]
        && table.nextId == old(table.nextId) + 1
  {
    reply := CreateWarnings(b);
    var user := NewUser(b.username, b.password, b.role, now);
    var errors := Validate(user);
    if |errors| > 0 {
      reply := reply + [Response(UnprocessableEntity, UserInvalid(errors))];
      return;
    }
    var created := table.Save(user, now);
    if created.Failure? {
      reply := reply + [Response(InternalServerError, Empty)];
      return;
    }
    reply := reply + [Response(Created, UserCreated(Public(created.value)))];
  }

  /** `edit`: only the username of a live user changes. A missing or deleted
      id answers 404; a result the validator rejects answers 400 with its
      errors, each holding the loaded row with the new username and the
      stored password, and nothing is saved; a write the table refuses ends
      in the `catch`, 500; otherwise 204, with the update-date refreshed if
      the username really changed. */
  method Edit(table: UserTable, id: nat, username: Option<string>, now: Time) returns (reply: Reply)
    requires table.Valid()
    modifies table
    ensures table.Valid()
    ensures old(table.AllValidated()) ==> table.AllValidated()
    ensures KeepsDeleted(old(table.rows), table.rows)
    ensures table.nextId == old(table.nextId)
    ensures !LiveIn(old(table.rows), id) ==>
      reply == [Response(NotFound, Text(UserNotFoundMessage))] && table.rows == old(table.rows)
    ensures LiveIn(old(table.rows), id) ==>
      var before := old(table.rows)[id];
      var edited := before.(username := username);
      if !IsValid(edited) then
        && reply == [Response(BadRequest, UserInvalid(Validate(edited)))] && table.rows == old(table.rows)
        && (forall e | e in reply[0].body.userErrors :: e.target == edited && e.target.password == before.password)
      else if edited == before then
        reply == [Response(NoContent, Empty)] && table.rows == old(table.rows)
      else if Rejection(old(table.rows), edited, Some(id)).Some? then
        reply == [Response(InternalServerError, Empty)] && table.rows == old(table.rows)
      else
        reply == [Response(NoContent, Empty)] && table.rows == old(table.rows)[id := Stored(edited.(updatedAt := Some(now)))]
  {
    var found := table.FindOne(id);
    if found.None? {
      reply := [Response(NotFound, Text(UserNotFoundMessage))];
      return;
    }
    var user := found.value.(username := username);
    var errors := Validate(user);
    if |errors| > 0 {
      reply := [Response(BadRequest, UserInvalid(errors))];
      return;
    }
    var saved := table.Save(user, now);
    if saved.Failure? {
      reply := [Response(InternalServerError, Empty)];
      return;
    }
    reply := [Response(NoContent, Empty)];
  }

  /** `delete`: soft-deletes a live user, 204; 404 when there is none. In both
      cases the id is not live afterwards, so deleting it again answers 404. */
  method Delete(table: UserTable, id: nat, now: Time) returns (reply: Reply)
    requires table.Valid()
    modifies table
    ensures table.Valid()
    ensures old(table.AllValidated()) ==> table.AllValidated()
    ensures KeepsDeleted(old(table.rows), table.rows)
    ensures table.nextId == old(table.nextId)
    ensures LiveIn(old(table.rows), id) ==>
      reply == [Response(NoContent, Empty)] && table.rows == old(table.rows)[id := SoftDeleted(old(table.rows)[id], now)]
    ensures !LiveIn(old(table.rows), id) ==>
      reply == [Response(NotFound, Text(UserNotFoundMessage))] && table.rows == old(table.rows)
    ensures !LiveIn(table.rows, id)
  {
    var found := table.FindOne(id);
    if found.None? {
      reply := [Response(NotFound, Text(UserNotFoundMessage))];
      return;
    }
    table.SoftDelete(id, now);
    reply := [Response(NoContent, Empty)];
  }

  /** The 404 `login` writes without returning when a field is missing or empty. */
  function LoginWarnings(b: LoginBody): (warnings: Reply)
    ensures warnings == [] <==> Truthy(b.username) && Truthy(b.password)
    ensures forall i | 0 <= i < |warnings| :: warnings[i] == Response(NotFound, Empty)
  {
    if Truthy(b.username) && Truthy(b.password) then [] else [Response(NotFound, Empty)]
  }

  /** The answer to a successful credential match for the user with key `id`
      and username `username`: a token whose subject is the id and whose
      `role` claim is the USERNAME, valid for 300 seconds; or, without a usable
      signing secret, the `catch` branch, 500. */
  function IssueResponse(id: nat, username: string, secret: Option<string>, now: Time): (r: Response)
    ensures r.status == Ok <==> Jwt.SecretUsable(secret)
    ensures r.status != Ok ==> r == Response(InternalServerError, Empty)
    ensures r.status == Ok ==>
      && r.body.Auth? && r.body.auth && r.body.token.Some?
      && r.body.token.value.claims == Jwt.Claims(id, username, now, now + TokenLifetime)
      && r.body.token.value.key == secret.value
  {
    match Jwt.Sign(id, username, secret, now, TokenLifetime)
    case Success(token) => Response(Ok, Auth(true, Some(token)))
    case Failure(_) => Response(InternalServerError, Empty)
  }

  /** `login`: the password is compared in plain text. No live user with both
      values answers 404; the (unique) matching user gets a token. */
  method Login(table: UserTable, b: LoginBody, secret: Option<string>, now: Time) returns (reply: Reply)
    requires table.Valid()
    ensures (forall k | k in table.rows :: !MatchesCredentials(table.rows[k], b.username, b.password)) ==>
      reply == LoginWarnings(b) + [Response(NotFound, Text(InvalidCredentialsMessage))]
    ensures forall k | k in table.rows && MatchesCredentials(table.rows[k], b.username, b.password) ::
      reply == LoginWarnings(b) + [IssueResponse(k, b.username.value, secret, now)]
  {
    reply := LoginWarnings(b);
    var user := table.FindByCredentials(b.username, b.password);
    if user.None? {
      reply := reply + [Response(NotFound, Text(InvalidCredentialsMessage))];
      return;
    }
    ghost var j :| j in table.rows && user.value == table.rows[j]
      && MatchesCredentials(table.rows[j], b.username, b.password);
    forall k | k in table.rows && MatchesCredentials(table.rows[k], b.username, b.password)
      ensures k == j
    {
      CredentialsMatchAtMostOne(table.rows, b.username, b.password, j, k);
    }
    reply := reply + [IssueResponse(user.value.id.value, user.value.username.value, secret, now)];
  }

  /** `logout`: a fixed acknowledgement; no table is read or written and no
      token is revoked. */
  function Logout(): (reply: Reply)
    ensures |reply| == 1 && reply[0].status == Ok
    ensures reply[0].body == Auth(false, None)
  {
    [Response(Ok, Auth(false, None))]
  }

  /** A token handed out at login passes the gate for exactly 300 seconds. */
  lemma LoginTokenPassesGateFor300Seconds(id: nat, username: string, secret: Option<string>, now: Time, later: Time)
    requires Jwt.SecretUsable(secret)
    ensures var r := IssueResponse(id, username, secret, now);
      r.status == Ok &&
      Authorization.VerifyToken(map[Authorization.AccessTokenHeader := Jwt.Encoded(r.body.token.value)], secret, later)
        == if later < now + TokenLifetime then Authorization.Next
           else Authorization.Halt(Response(Unauthorized, Text(Authorization.UnauthorizedMessage)))
  {
    Authorization.IssuedTokenAdmittedUntilExpiry(id, username, secret, now, TokenLifetime, later);
  }
}

/** Concrete request sequences against fresh tables. Each shows, from the
    handlers' contracts alone, a behaviour of the source, including the
    defects it has: the missing `return` after the 400s, the username placed
    in the `role` claim, plaintext passwords, soft-deleted usernames that
    stay reserved, passwords echoed in validation errors, and usernames cut
    to their column width. */
module Scenarios {
  import opened Wrappers
  import Storage
  import opened Http
  import UserEntity
  import UserRepository
  import UserController
  import MovieRepository
  import MovieController
  import Jwt

  /** Role "SuperAdmin" is answered 400 first, yet the user is validated and
      saved with that role, because no `return` follows the 400. */
  method InvalidRoleIsPersisted() returns (reply: Reply, storedRole: Option<string>)
    ensures |reply| == 2
    ensures reply[0] == Response(BadRequest, Text(UserController.InvalidRoleMessage))
    ensures reply[1].status == Created
    ensures storedRole == Some("SuperAdmin")
  {
    var table := new UserRepository.UserTable();
    reply := UserController.Create(table, UserController.CreateBody(Some("alice"), Some("secret"), Some("SuperAdmin")), 1000);
    assert UserEntity.IsValid(UserEntity.NewUser(Some("alice"), Some("secret"), Some("SuperAdmin"), 1000));
    storedRole := table.rows[1].role;
  }

  /** A missing password is answered 400, then the validator's 422; nothing is stored. */
  method MissingFieldIsNotStored() returns (reply: Reply, stored: nat)
    ensures |reply| == 2
    ensures reply[0] == Response(BadRequest, Text(UserController.InvalidParametersMessage))
    ensures reply[1] == Response(UnprocessableEntity, UserInvalid(
      [UserEntity.ValidationError(UserEntity.NewUser(Some("alice"), None, Some("User"), 1000), "password", None)]))
    ensures stored == 0
  {
    var table := new UserRepository.UserTable();
    reply := UserController.Create(table, UserController.CreateBody(Some("alice"), None, Some("User")), 1000);
    var user := UserEntity.NewUser(Some("alice"), None, Some("User"), 1000);
    assert UserEntity.FailingProperties(user) == ["password"];
    assert UserEntity.Validate(user) == [UserEntity.ValidationError(user, "password", None)];
    stored := |table.rows|;
  }

  /** Deleting a user twice: 204, then 404; afterwards `getById` answers 404. */
  method DeleteTwice() returns (first: Reply, second: Reply, lookup: Reply)
    ensures first == [Response(NoContent, Empty)]
    ensures second == [Response(NotFound, Text(UserController.UserNotFoundMessage))]
    ensures lookup == [Response(NotFound, Text(UserController.UserNotFoundMessage))]
  {
    var table := new UserRepository.UserTable();
    var created := UserController.Create(table, UserController.CreateBody(Some("alice"), Some("secret"), Some("User")), 1000);
    assert UserEntity.IsValid(UserEntity.NewUser(Some("alice"), Some("secret"), Some("User"), 1000));
    first := UserController.Delete(table, 1, 1001);
    second := UserController.Delete(table, 1, 1002);
    lookup := UserController.GetById(table, 1, 1003);
  }

  /** A fresh table in which "alice" was registered at 1000 and deleted at 1001. */
  method TableWithDeletedAlice() returns (table: UserRepository.UserTable)
    ensures fresh(table) && table.Valid()
    ensures table.rows == map[1 := UserEntity.User(Some(1), Some("alice"), Some("secret"), Some("User"), Some(1000), Some(1001), Some(1001))]
  {
    table := new UserRepository.UserTable();
    var created := UserController.Create(table, UserController.CreateBody(Some("alice"), Some("secret"), Some("User")), 1000);
    assert UserEntity.IsValid(UserEntity.NewUser(Some("alice"), Some("secret"), Some("User"), 1000));
    var deleted := UserController.Delete(table, 1, 1001);
  }

  /** A soft-deleted username still holds the unique constraint, so
      registering it again fails in the store: 500, and no row is added. */
  method DeletedUsernameStaysTaken() returns (reply: Reply, rows: nat)
    ensures reply == [Response(InternalServerError, Empty)]
    ensures rows == 1
  {
    var table := TableWithDeletedAlice();
    var again := UserEntity.NewUser(Some("alice"), Some("other"), Some("Admin"), 1002);
    assert UserEntity.IsValid(again);
    UserRepository.DeletedUsernameBlocks(table.rows, 1, again);
    reply := UserController.Create(table, UserController.CreateBody(Some("alice"), Some("other"), Some("Admin")), 1002);
    assert table.rows.Keys == {1};
    rows := |table.rows|;
  }

  /** A username of 51 characters passes `@Length(5, 100)` but not the
      `varchar(50)` column: 500, nothing stored. */
  method LongUsernameRefusedByTable() returns (reply: Reply, stored: nat)
    ensures reply == [Response(InternalServerError, Empty)]
    ensures stored == 0
  {
    var table := new UserRepository.UserTable();
    var name := seq(51, _ => 'a');
    reply := UserController.Create(table, UserController.CreateBody(Some(name), Some("secret"), Some("User")), 1000);
    assert UserEntity.IsValid(UserEntity.NewUser(Some(name), Some("secret"), Some("User"), 1000));
    assert name[50] != ' ';
    stored := |table.rows|;
  }

  /** A username of 50 letters and a trailing space passes validation and
      is answered 201 under the name as sent, but the table keeps it cut to
      50 letters, so logging in with the registered name finds no user. */
  method PaddedUsernameCannotLogIn() returns (reply: Reply, storedName: Option<string>, login: Reply)
    ensures |reply| == 1 && reply[0].status == Created
    ensures reply[0].body.UserCreated? && reply[0].body.created.username == Some(seq(50, _ => 'a') + " ")
    ensures storedName == Some(seq(50, _ => 'a'))
    ensures login == [Response(NotFound, Text(UserController.InvalidCredentialsMessage))]
  {
    var table := new UserRepository.UserTable();
    var name := seq(50, _ => 'a') + " ";
    reply := UserController.Create(table, UserController.CreateBody(Some(name), Some("secret"), Some("User")), 1000);
    assert UserEntity.IsValid(UserEntity.NewUser(Some(name), Some("secret"), Some("User"), 1000));
    assert name[..50] == seq(50, _ => 'a');
    storedName := table.rows[1].username;
    login := UserController.Login(table, UserController.LoginBody(Some(name), Some("secret")), Some("key"), 1001);
  }

  /** A password too short for `@Length(4, 100)` is answered 422, and the
      error hands the submitted password back in its `target`. */
  method CreateEchoesSubmittedPassword() returns (reply: Reply)
    ensures reply == [Response(UnprocessableEntity, UserInvalid([UserEntity.ValidationError(
      UserEntity.NewUser(Some("alice"), Some("abc"), Some("User"), 1000), "password", Some("abc"))]))]
    ensures reply[0].body.userErrors[0].target.password == Some("abc")
  {
    var table := new UserRepository.UserTable();
    reply := UserController.Create(table, UserController.CreateBody(Some("alice"), Some("abc"), Some("User")), 1000);
    var user := UserEntity.NewUser(Some("alice"), Some("abc"), Some("User"), 1000);
    assert UserEntity.FailingProperties(user) == ["password"];
    assert UserEntity.Validate(user) == [UserEntity.ValidationError(user, "password", Some("abc"))];
  }

  /** Renaming a user to a name too short for `@Length(5, 100)` is answered
      400 with the loaded row as the error's `target`: the stored password
      travels in the response. */
  method EditEchoesStoredPassword() returns (reply: Reply)
    ensures reply == [Response(BadRequest, UserInvalid([UserEntity.ValidationError(
      UserEntity.User(Some(1), Some("ab"), Some("secret"), Some("User"), Some(1000), Some(1000), None), "username", Some("ab"))]))]
    ensures reply[0].body.userErrors[0].target.password == Some("secret")
  {
    var table := new UserRepository.UserTable();
    var created := UserController.Create(table, UserController.CreateBody(Some("alice"), Some("secret"), Some("User")), 1000);
    assert UserEntity.IsValid(UserEntity.NewUser(Some("alice"), Some("secret"), Some("User"), 1000));
    reply := UserController.Edit(table, 1, Some("ab"), 1001);
    var edited := UserEntity.User(Some(1), Some("ab"), Some("secret"), Some("User"), Some(1000), Some(1000), None);
    assert UserEntity.FailingProperties(edited) == ["username"];
    assert UserEntity.Validate(edited) == [UserEntity.ValidationError(edited, "username", Some("ab"))];
  }

  /** Listing users shows the time of the listing as both dates, not the
      dates the row holds. */
  method ListingShowsLoadTime() returns (reply: Reply, createdAt: Option<Storage.Time>)
    ensures reply == [Response(Ok, UserList({UserSummary(Some(1), Some("alice"), Some(2000), Some(2000))}))]
    ensures createdAt == Some(1000)
  {
    var table := new UserRepository.UserTable();
    var created := UserController.Create(table, UserController.CreateBody(Some("alice"), Some("secret"), Some("User")), 1000);
    assert UserEntity.IsValid(UserEntity.NewUser(Some("alice"), Some("secret"), Some("User"), 1000));
    reply := UserController.Get(table, 2000);
    assert UserRepository.LiveIn(table.rows, 1);
    assert reply[0].body.users == {UserSummary(Some(1), Some("alice"), Some(2000), Some(2000))};
    createdAt := table.rows[1].createdAt;
  }

  /** A wrong password finds no user: 404 and no token. */
  method WrongPasswordIsNotFound() returns (reply: Reply)
    ensures reply == [Response(NotFound, Text(UserController.InvalidCredentialsMessage))]
  {
    var table := new UserRepository.UserTable();
    var created := UserController.Create(table, UserController.CreateBody(Some("alice"), Some("secret"), Some("User")), 1000);
    assert UserEntity.IsValid(UserEntity.NewUser(Some("alice"), Some("secret"), Some("User"), 1000));
    reply := UserController.Login(table, UserController.LoginBody(Some("alice"), Some("wrong")), Some("key"), 1001);
  }

  /** An Admin who logs in gets a token whose `role` claim is the username,
      not "Admin"; its subject is the user's id and it expires 300 s later. */
  method RoleClaimIsUsername() returns (claims: Jwt.Claims)
    ensures claims == Jwt.Claims(1, "alice", 1001, 1301)
    ensures claims.role != "Admin"
  {
    var table := new UserRepository.UserTable();
    var created := UserController.Create(table, UserController.CreateBody(Some("alice"), Some("secret"), Some("Admin")), 1000);
    assert UserEntity.IsValid(UserEntity.NewUser(Some("alice"), Some("secret"), Some("Admin"), 1000));
    assert UserRepository.MatchesCredentials(table.rows[1], Some("alice"), Some("secret"));
    var reply := UserController.Login(table, UserController.LoginBody(Some("alice"), Some("secret")), Some("key"), 1001);
    claims := reply[0].body.token.value.claims;
  }

  /** An existing movie cannot be deleted: the store refuses the soft delete
      and the handler answers 500; the movie is still found afterwards. */
  method ExistingMovieIsNotDeleted() returns (reply: Reply, lookup: Reply)
    ensures reply == [Response(InternalServerError, Empty)]
    ensures |lookup| == 1 && lookup[0].status == Ok
  {
    var table := new MovieRepository.MovieTable();
    var created := MovieController.Create(table, MovieController.CreateBody(Some("Alien"), Some("In space"), Some("Scott"), Some("Horror")));
    reply := MovieController.Delete(table, 1);
    lookup := MovieController.GetById(table, 1);
  }

  /** An empty title is answered 400, yet the movie is saved and answered 201,
      because no `return` follows the 400. */
  method EmptyTitleIsPersisted() returns (reply: Reply, stored: nat)
    ensures |reply| == 2 && reply[0] == Response(BadRequest, Empty) && reply[1].status == Created
    ensures stored == 1
  {
    var table := new MovieRepository.MovieTable();
    reply := MovieController.Create(table, MovieController.CreateBody(Some(""), Some("In space"), Some("Scott"), Some("Horror")));
    stored := |table.rows|;
  }
}

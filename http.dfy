/** The responses the handlers write, as values: a status code and a body.
    A handler's `Reply` lists every response it writes, in the order it
    writes them; the client receives the first one. */
module Http {
  import opened Wrappers
  import opened Storage
  import Jwt
  import UserEntity
  import MovieEntity

  // Status codes of the http-status-codes package that the handlers use.
  const Ok: nat := 200
  const Created: nat := 201
  const NoContent: nat := 204
  const BadRequest: nat := 400
  const Unauthorized: nat := 401
  const Forbidden: nat := 403
  const NotFound: nat := 404
  const UnprocessableEntity: nat := 422
  const InternalServerError: nat := 500

  /** A user as `select: ['id', 'username']` loads it. TypeORM builds each
      loaded row with `new User()`, whose constructor stamps both dates with
      the load time; the query then fills in the two selected columns only.
      The unset `password` and `role` are left out of the JSON. */
  datatype UserSummary = UserSummary(
    id: Option<nat>, username: Option<string>, createdAt: Option<Time>, updatedAt: Option<Time>)

  /** A saved user with its `password` property taken out. */
  datatype UserPublic = UserPublic(
    id: Option<nat>, username: Option<string>, role: Option<string>,
    createdAt: Option<Time>, updatedAt: Option<Time>, deletedAt: Option<Time>)

  /** Response bodies. The validation bodies are the error lists that
      class-validator returns, and each error carries the validated object,
      so a user's password travels in them. */
  datatype Body =
    | Empty
    | Text(message: string)
    | UserInvalid(userErrors: seq<UserEntity.ValidationError>)
    | MovieInvalid(movieErrors: seq<MovieEntity.ValidationError>)
    | UserList(users: set<UserSummary>)
    | UserDetail(user: UserSummary)
    | UserCreated(created: UserPublic)
    | Auth(auth: bool, token: Option<Jwt.Token>)
    | MovieList(movies: set<MovieEntity.Movie>)
    | MovieDetail(found: MovieEntity.Movie)
    | MovieCreated(saved: MovieEntity.Movie)

  datatype Response = Response(status: nat, body: Body)

  type Reply = seq<Response>

  /** JavaScript truthiness of a string field of a request body: neither
      missing nor empty. */
  predicate Truthy(field: Option<string>)
  {
    field.Some? && field.value != ""
  }
}

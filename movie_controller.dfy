/** The handlers of src/controllers/MovieController.ts over a `MovieTable`,
    in the same form as the user handlers: each returns the responses it
    writes, in order. There is no update handler. */
module MovieController {
  import opened Wrappers
  import opened Http
  import opened MovieEntity
  import opened MovieRepository

  const MovieNotFoundMessage: string := "Movie not found"

  datatype MovieQuery = MovieQuery(director: Option<string>, title: Option<string>, genre: Option<Genre>)

  datatype CreateBody = CreateBody(title: Option<string>, description: Option<string>,
                                   director: Option<string>, genre: Option<Genre>)

  /** `get`: the movies whose director, genre and title all equal the query's.
      The selected columns are all five columns of the entity, so each movie
      is returned whole. */
  method Get(table: MovieTable, q: MovieQuery) returns (reply: Reply)
    ensures |reply| == 1 && reply[0].status == Ok && reply[0].body.MovieList?
    ensures forall m :: m in reply[0].body.movies <==>
      exists k :: k in table.rows && table.rows[k] == m && MatchesQuery(m, q.director, q.genre, q.title)
  {
    var movies := table.Find(q.director, q.genre, q.title);
    reply := [Response(Ok, MovieList(movies))];
  }

  /** `getById`: the movie with that id, or 404. */
  method GetById(table: MovieTable, id: nat) returns (reply: Reply)
    ensures id in table.rows ==> reply == [Response(Ok, MovieDetail(table.rows[id]))]
    ensures id !in table.rows ==> reply == [Response(NotFound, Text(MovieNotFoundMessage))]
  {
    var movie := table.FindOne(id);
    if movie.None? {
      reply := [Response(NotFound, Text(MovieNotFoundMessage))];
      return;
    }
    reply := [Response(Ok, MovieDetail(movie.value))];
  }

  /** The 400 `create` writes without returning when the title or the
      description is missing or empty. */
  function CreateWarnings(b: CreateBody): (warnings: Reply)
    ensures warnings == [] <==> Truthy(b.title) && Truthy(b.description)
    ensures forall i | 0 <= i < |warnings| :: warnings[i] == Response(BadRequest, Empty)
  {
    if Truthy(b.title) && Truthy(b.description) then [] else [Response(BadRequest, Empty)]
  }

  /** `create`: after the warnings, validation never objects (422 is
      unreachable), so the table decides: a refused insert ends in the
      `catch`, 500, and stores nothing; otherwise the saved movie, with its
      new id, is answered with 201, and the row holds its stored form. */
  method Create(table: MovieTable, b: CreateBody) returns (reply: Reply)
    requires table.Valid()
    modifies table
    ensures table.Valid()
    ensures var movie := NewMovie(b.title, b.description, b.director, b.genre);
      if Rejection(movie).Some? then
        && reply == CreateWarnings(b) + [Response(InternalServerError, Empty)]
        && table.rows == old(table.rows) && table.nextId == old(table.nextId)
      else
        var saved := movie.(id := Some(old(table.nextId)));
        && reply == CreateWarnings(b) + [Response(Created, MovieCreated(saved))]
        && table.rows == old(table.rows)[old(table.nextId) := Stored(saved)]
        && table.nextId == old(table.nextId) + 1
  {
    reply := CreateWarnings(b);
    var movie := NewMovie(b.title, b.description, b.director, b.genre);
    var errors := Validate(movie);
    if |errors| > 0 {
      reply := reply + [Response(UnprocessableEntity, MovieInvalid(errors))];
      return;
    }
    var created := table.Save(movie);
    if created.Failure? {
      reply := reply + [Response(InternalServerError, Empty)];
      return;
    }
    reply := reply + [Response(Created, MovieCreated(created.value))];
  }

  /** `delete`: 404 when there is no such movie; otherwise the soft delete is
      refused by the store and the `catch` answers 500. No row ever changes. */
  method Delete(table: MovieTable, id: nat) returns (reply: Reply)
    ensures id !in table.rows ==> reply == [Response(NotFound, Text(MovieNotFoundMessage))]
    ensures id in table.rows ==> reply == [Response(InternalServerError, Empty)]
  {
    var movie := table.FindOne(id);
    if movie.None? {
      reply := [Response(NotFound, Text(MovieNotFoundMessage))];
      return;
    }
    var outcome := table.SoftDelete(id);
    if outcome.Fail? {
      reply := [Response(InternalServerError, Empty)];
      return;
    }
    reply := [Response(NoContent, Empty)];
  }
}

/** The contract this model assumes of TypeORM's `Repository<Movie>`.
    `Movie` has no `@DeleteDateColumn`, so every read sees every row and a
    soft delete is refused with `MissingDeleteDateColumnError`. */
module MovieRepository {
  import opened Wrappers
  import opened Storage
  import opened MovieEntity

  type Rows = map<nat, Movie>

  /** `where: { director, genre, title }`: equality on each of the three
      columns. A missing query value is compared as SQL NULL and matches no row. */
  predicate MatchesQuery(m: Movie, director: Option<string>, genre: Option<Genre>, title: Option<string>)
  {
    && director.Some? && m.director == director
    && genre.Some? && m.genre == genre
    && title.Some? && m.title == title
  }

  /** The constraint an insert of `m` breaks, if any. */
  function Rejection(m: Movie): (e: Option<StoreError>)
    ensures e.None? <==> FitsColumns(m)
  {
    if m.title.None? || m.description.None? || m.director.None? || m.genre.None? then Some(NotNullViolation)
    else if !FitsColumns(m) then Some(ValueTooLong)
    else None
  }

  class MovieTable {
    var rows: Rows
    var nextId: nat

    /** Keys come from the sequence and equal the row's `id`; every row
        holds values within the column widths. */
    ghost predicate Valid()
      reads this
    {
      && nextId >= 1
      && forall k | k in rows :: k < nextId && rows[k].id == Some(k) && WithinWidths(rows[k])
    }

    constructor ()
      ensures Valid() && rows == map[] && nextId == 1
    {
      rows := map[];
      nextId := 1;
    }

    /** `find({ where: { director, genre, title } })`: every row that matches. */
    method Find(director: Option<string>, genre: Option<Genre>, title: Option<string>) returns (movies: set<Movie>)
      ensures forall m :: m in movies <==>
        exists k :: k in rows && rows[k] == m && MatchesQuery(m, director, genre, title)
    {
      movies := set k | k in rows && MatchesQuery(rows[k], director, genre, title) :: rows[k];
    }

    /** `findOne(id)`: the row with that key, if any. */
    method FindOne(id: nat) returns (movie: Option<Movie>)
      ensures movie == if id in rows then Some(rows[id]) else None
    {
      movie := if id in rows then Some(rows[id]) else None;
    }

    /** `save(movie)` of a new movie: inserted under the next key, or refused
        without any change. The result is the movie as the caller holds it;
        the row is its stored form. */
    method Save(m: Movie) returns (r: Result<Movie, StoreError>)
      requires Valid()
      requires m.id.None?
      modifies this
      ensures Valid()
      ensures Rejection(m).Some? ==>
        r == Failure(Rejection(m).value) && rows == old(rows) && nextId == old(nextId)
      ensures Rejection(m).None? ==>
        && r == Success(m.(id := Some(old(nextId))))
        && rows == old(rows)[old(nextId) := Stored(r.value)]
        && nextId == old(nextId) + 1
    {
      var e := Rejection(m);
      if e.Some? {
        r := Failure(e.value);
        return;
      }
      var saved := m.(id := Some(nextId));
      rows := rows[nextId := Stored(saved)];
      nextId := nextId + 1;
      r := Success(saved);
    }

    /** `softDelete(id)`: refused for an entity without a delete-date column;
        the table is left as it is. */
    method SoftDelete(id: nat) returns (outcome: Outcome<StoreError>)
      ensures outcome == Fail(MissingDeleteDateColumn)
    {
      outcome := Fail(MissingDeleteDateColumn);
    }
  }
}

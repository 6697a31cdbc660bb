/** The `Movie` entity of src/entities/Movie.ts: a plain record with an
    optional id and four business fields. It declares no validator and no
    lifecycle columns (no creation, update or delete date). */
module MovieEntity {
  import opened Wrappers
  import opened Storage

  /** Values of the `Genre` enum. The enum's members are not part of this
      model, so any label is representable. */
  type Genre = string

  datatype Movie = Movie(
    id: Option<nat>,
    title: Option<string>,
    description: Option<string>,
    director: Option<string>,
    genre: Option<Genre>)

  // `@Column({ length: n })`
  const TitleWidth: nat := 50
  const DescriptionWidth: nat := 250
  const DirectorWidth: nat := 50

  /** `new Movie(title, description, director, genre)`: the four fields are
      stored as given and `id` stays unset until the movie is saved. */
  function NewMovie(title: Option<string>, description: Option<string>, director: Option<string>, genre: Option<Genre>): (m: Movie)
    ensures m.title == title && m.description == description
    ensures m.director == director && m.genre == genre
    ensures m.id.None?
  {
    Movie(None, title, description, director, genre)
  }

  /** The shape of class-validator's error entries for a movie: the
      validated object, the property and its value. */
  datatype ValidationError = ValidationError(target: Movie, property: string, value: Option<string>)

  /** `validate(movie)`: `Movie` carries no class-validator decorator, so no
      property is ever reported. */
  function Validate(m: Movie): (errors: seq<ValidationError>)
    ensures |errors| == 0
  {
    []
  }

  /** What the table accepts: every column is NOT NULL and each string fits
      its `varchar` (see `Storage.FitsVarchar`). The enum type's own check is
      not modelled. */
  predicate FitsColumns(m: Movie)
  {
    && FitsVarchar(m.title, TitleWidth)
    && FitsVarchar(m.description, DescriptionWidth)
    && FitsVarchar(m.director, DirectorWidth)
    && m.genre.Some?
  }

  /** What a stored row holds: every column set and each string within its width. */
  predicate WithinWidths(m: Movie)
  {
    && m.title.Some? && |m.title.value| <= TitleWidth
    && m.description.Some? && |m.description.value| <= DescriptionWidth
    && m.director.Some? && |m.director.value| <= DirectorWidth
    && m.genre.Some?
  }

  /** The row the table keeps for an accepted insert: each `varchar` value
      is cut to its width. */
  function Stored(m: Movie): (s: Movie)
    ensures s.id == m.id && s.genre == m.genre
    ensures FitsColumns(m) ==> WithinWidths(s)
    ensures WithinWidths(m) ==> s == m
  {
    m.(title := StoredVarchar(m.title, TitleWidth),
       description := StoredVarchar(m.description, DescriptionWidth),
       director := StoredVarchar(m.director, DirectorWidth))
  }

  /** Only the store bounds the fields: a movie with a 51-character title
      passes validation and is refused by the table. */
  lemma OnlyStorageBoundsTitle()
    ensures exists m :: Validate(m) == [] && !FitsColumns(m)
  {
    var title := seq(TitleWidth + 1, _ => 't');
    var m := NewMovie(Some(title), Some("d"), Some("someone"), Some("Drama"));
    assert m.title.value[TitleWidth] != ' ';
    assert Validate(m) == [] && !FitsColumns(m);
  }
}

/** What the relational store enforces on its own, independently of any
    validator: NOT NULL columns, `varchar(n)` widths and unique constraints.
    The schema is taken from the entity declarations; the migrations that
    actually create it are not part of this model. The store is taken to be
    PostgreSQL, the database the `timestamp with time zone` columns name. */
module Storage {
  import opened Wrappers

  /** Wall-clock time in whole seconds. */
  type Time = int

  /** The ways a write can be refused. Each of them surfaces in a handler as
      an exception, i.e. as its `catch` branch. */
  datatype StoreError =
    | NotNullViolation         // a NOT NULL column received no value
    | ValueTooLong             // a string is wider than its varchar(n)
    | UniqueViolation          // a unique constraint already holds that value
    | MissingDeleteDateColumn  // soft delete on an entity without a delete-date column

  /** A NOT NULL `varchar(width)` column accepts the field. PostgreSQL
      refuses a longer string unless every character past the width is a
      space; such a string is cut to the width instead. */
  predicate FitsVarchar(field: Option<string>, width: nat)
  {
    field.Some? && forall i | width <= i < |field.value| :: field.value[i] == ' '
  }

  /** The value the column holds after the field is written to it. */
  function StoredVarchar(field: Option<string>, width: nat): (stored: Option<string>)
    ensures stored.Some? <==> field.Some?
    ensures field.Some? ==> |stored.value| <= width && stored.value <= field.value
    ensures field.Some? && |field.value| <= width ==> stored == field
    ensures field.Some? && |field.value| > width ==> |stored.value| == width
  {
    match field
    case None => None
    case Some(s) => Some(if |s| <= width then s else s[..width])
  }

  /** An accepted value loses only spaces: it is the stored value followed
      by nothing but spaces. */
  lemma AcceptedValueLosesOnlySpaces(field: Option<string>, width: nat)
    requires FitsVarchar(field, width)
    ensures var stored := StoredVarchar(field, width).value;
      field.value == stored + seq(|field.value| - |stored|, _ => ' ')
  {
    var stored := StoredVarchar(field, width).value;
    var pad := seq(|field.value| - |stored|, _ => ' ');
    assert forall i | 0 <= i < |field.value| :: field.value[i] == (stored + pad)[i];
  }
}

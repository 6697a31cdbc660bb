/** The `User` entity of src/entities/User.ts: the record its constructor
    builds, the `@Length` rules class-validator checks, the column widths
    the store enforces, and the lifecycle columns. */
module UserEntity {
  import opened Wrappers
  import opened Storage

  /** Fields are optional exactly where the source's are: a request body may
      omit any of the three strings, and `id` and `deletedAt` stay unset
      until the store fills them. */
  datatype User = User(
    id: Option<nat>,
    username: Option<string>,
    password: Option<string>,
    role: Option<string>,
    createdAt: Option<Time>,
    updatedAt: Option<Time>,
    deletedAt: Option<Time>)

  // `@Column({ length: n })`
  const UsernameWidth: nat := 50
  const PasswordWidth: nat := 100
  const RoleWidth: nat := 50

  /** `new User(username, password, role)` at time `now`: the three strings
      are stored as given, both `new Date()` stamps are taken, and `id` and
      `deletedAt` are left unset. */
  function NewUser(username: Option<string>, password: Option<string>, role: Option<string>, now: Time): (u: User)
    ensures u.username == username && u.password == password && u.role == role
    ensures u.id.None? && u.deletedAt.None?
    ensures u.createdAt == Some(now) && u.updatedAt == Some(now)
  {
    User(None, username, password, role, Some(now), Some(now), None)
  }

  /** class-validator's `@Length(min, max)`: the value must be a string whose
      length lies in the closed range; a missing value fails. */
  predicate HasLength(field: Option<string>, min: nat, max: nat)
  {
    field.Some? && min <= |field.value| <= max
  }

  /** The three `@Length` rules together. */
  predicate IsValid(u: User)
  {
    && HasLength(u.username, 5, 100)
    && HasLength(u.password, 4, 100)
    && HasLength(u.role, 4, 50)
  }

  /** The properties whose rule fails, in declaration order. */
  function FailingProperties(u: User): (properties: seq<string>)
    ensures properties == [] <==> IsValid(u)
    ensures "username" in properties <==> !HasLength(u.username, 5, 100)
    ensures "password" in properties <==> !HasLength(u.password, 4, 100)
    ensures "role" in properties <==> !HasLength(u.role, 4, 50)
    ensures forall p :: p in properties ==> p in {"username", "password", "role"}
  {
    (if HasLength(u.username, 5, 100) then [] else ["username"])
    + (if HasLength(u.password, 4, 100) then [] else ["password"])
    + (if HasLength(u.role, 4, 50) then [] else ["role"])
  }

  /** The value of one of the three validated properties. */
  function PropertyValue(u: User, property: string): Option<string>
  {
    if property == "username" then u.username
    else if property == "password" then u.password
    else if property == "role" then u.role
    else None
  }

  /** One entry of class-validator's result with its default options: the
      validated object itself (`target`), the property and its value. The
      `constraints` messages and the empty `children` are not modelled. */
  datatype ValidationError = ValidationError(target: User, property: string, value: Option<string>)

  /** `validate(user)`: one error per failing property, in declaration
      order, each carrying the whole user, its password included. */
  function Validate(u: User): (errors: seq<ValidationError>)
    ensures errors == [] <==> IsValid(u)
    ensures |errors| == |FailingProperties(u)|
    ensures forall i | 0 <= i < |errors| ::
      && errors[i].target == u
      && errors[i].property == FailingProperties(u)[i]
      && errors[i].value == PropertyValue(u, errors[i].property)
  {
    var properties := FailingProperties(u);
    seq(|properties|, i requires 0 <= i < |properties| => ValidationError(u, properties[i], PropertyValue(u, properties[i])))
  }

  /** Whenever validation fails, the errors hand back the password the
      object holds. */
  lemma FailedValidationCarriesPassword(u: User)
    requires !IsValid(u)
    ensures |Validate(u)| > 0 && Validate(u)[0].target.password == u.password
  {
  }

  /** What the table accepts: every string column is NOT NULL and no wider
      than its `varchar`. */
  predicate FitsColumns(u: User)
  {
    && FitsVarchar(u.username, UsernameWidth)
    && FitsVarchar(u.password, PasswordWidth)
    && FitsVarchar(u.role, RoleWidth)
  }

  /** What a stored row holds: every string column set and within its width. */
  predicate WithinWidths(u: User)
  {
    && u.username.Some? && |u.username.value| <= UsernameWidth
    && u.password.Some? && |u.password.value| <= PasswordWidth
    && u.role.Some? && |u.role.value| <= RoleWidth
  }

  /** The row the table keeps for an accepted write: each `varchar` value is
      cut to its width. Nothing else is touched. */
  function Stored(u: User): (s: User)
    ensures s.id == u.id && s.createdAt == u.createdAt && s.updatedAt == u.updatedAt && s.deletedAt == u.deletedAt
    ensures FitsColumns(u) ==> WithinWidths(s)
    ensures WithinWidths(u) ==> s == u
    ensures IsValid(u) ==> IsValid(s) && s.password == u.password && s.role == u.role
  {
    u.(username := StoredVarchar(u.username, UsernameWidth),
       password := StoredVarchar(u.password, PasswordWidth),
       role := StoredVarchar(u.role, RoleWidth))
  }

  /** The validator bounds password and role by their widths already, so a
      valid user fits the table exactly when its username does. */
  lemma ValidFitsIffUsernameFits(u: User)
    requires IsValid(u)
    ensures FitsColumns(u) <==> FitsVarchar(u.username, UsernameWidth)
  {
  }

  /** So there are users the validator accepts and the table refuses. */
  lemma ValidatorWiderThanUsernameColumn()
    ensures exists u :: IsValid(u) && !FitsColumns(u)
  {
    var name := seq(UsernameWidth + 1, _ => 'a');
    var u := NewUser(Some(name), Some("pass"), Some("User"), 0);
    assert u.username.value[UsernameWidth] != ' ';
    assert IsValid(u) && !FitsColumns(u);
  }

  /** And there are valid users that the table accepts under another
      username: one padded with spaces past 50 characters. */
  lemma PaddedUsernameIsCut()
    ensures exists u :: IsValid(u) && FitsColumns(u) && Stored(u).username != u.username
  {
    var name := seq(UsernameWidth, _ => 'a') + " ";
    var u := NewUser(Some(name), Some("pass"), Some("User"), 0);
    assert |Stored(u).username.value| == UsernameWidth;
    assert IsValid(u) && FitsColumns(u) && Stored(u).username != u.username;
  }

  /** A row is live while its `@DeleteDateColumn` is unset. */
  predicate IsLive(u: User)
  {
    u.deletedAt.None?
  }

  /** The row after a soft delete at `now`: the delete-date and the
      update-date columns take the current time; nothing else changes. */
  function SoftDeleted(u: User, now: Time): (d: User)
    ensures !IsLive(d) && d.deletedAt == Some(now) && d.updatedAt == Some(now)
    ensures d.id == u.id && d.username == u.username && d.password == u.password
    ensures d.role == u.role && d.createdAt == u.createdAt
  {
    u.(deletedAt := Some(now), updatedAt := Some(now))
  }

  /** A freshly constructed user is live and was created when it was last updated. */
  lemma NewUserIsLive(username: Option<string>, password: Option<string>, role: Option<string>, now: Time)
    ensures var u := NewUser(username, password, role, now);
      IsLive(u) && u.createdAt == u.updatedAt
  {
  }
}

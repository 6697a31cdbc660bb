/** The contract this model assumes of TypeORM's `Repository<User>` over a
    relational table. The table is a map from primary key to row plus the
    next value of the key sequence. `User` has a `@DeleteDateColumn`, so
    `find` and `findOne` skip soft-deleted rows; the `@Unique(['username'])`
    constraint lives in the table and covers every row, deleted or not. */
module UserRepository {
  import opened Wrappers
  import opened Storage
  import opened UserEntity

  type Rows = map<nat, User>

  /** The unique constraint on `username`, over all rows. */
  ghost predicate UniqueUsernames(rows: Rows)
  {
    forall j, k | j in rows && k in rows && j != k :: rows[j].username != rows[k].username
  }

  /** The default read path sees row `id`. */
  predicate LiveIn(rows: Rows, id: nat)
  {
    id in rows && IsLive(rows[id])
  }

  /** `where: { username, password }` against a live row. A missing value is
      compared as SQL NULL and matches no row. */
  predicate MatchesCredentials(u: User, username: Option<string>, password: Option<string>)
  {
    IsLive(u) && username.Some? && password.Some? && u.username == username && u.password == password
  }

  /** The constraint a write of `u` breaks, if any; `self` is the key of the
      row being updated (its own old value does not conflict with it). The
      unique index compares the username as the column would hold it. */
  function Rejection(rows: Rows, u: User, self: Option<nat>): (e: Option<StoreError>)
    ensures e.None? <==> FitsColumns(u) && forall k | k in rows && Some(k) != self :: rows[k].username != Stored(u).username
  {
    if u.username.None? || u.password.None? || u.role.None? then Some(NotNullViolation)
    else if !FitsColumns(u) then Some(ValueTooLong)
    else if exists k | k in rows && Some(k) != self :: rows[k].username == Stored(u).username then Some(UniqueViolation)
    else None
  }

  /** Soft deletion is never undone: a row that is deleted before is still
      there afterwards, unchanged, and no row is ever physically removed. */
  ghost predicate KeepsDeleted(before: Rows, after: Rows)
  {
    && before.Keys <= after.Keys
    && forall k | k in before && !IsLive(before[k]) :: after[k] == before[k]
  }

  lemma KeepsDeletedTransitive(a: Rows, b: Rows, c: Rows)
    requires KeepsDeleted(a, b) && KeepsDeleted(b, c)
    ensures KeepsDeleted(a, c)
  {
  }

  /** Whatever username a deleted row holds, no later write may reuse it. */
  lemma DeletedUsernameBlocks(rows: Rows, k: nat, u: User)
    requires k in rows && !IsLive(rows[k]) && rows[k].username == Stored(u).username
    ensures Rejection(rows, u, None).Some?
  {
  }

  /** With the constraint in place at most one live row matches a login. */
  lemma CredentialsMatchAtMostOne(rows: Rows, username: Option<string>, password: Option<string>, j: nat, k: nat)
    requires UniqueUsernames(rows)
    requires j in rows && MatchesCredentials(rows[j], username, password)
    requires k in rows && MatchesCredentials(rows[k], username, password)
    ensures j == k
  {
  }

  class UserTable {
    var rows: Rows
    var nextId: nat

    /** Integrity the database itself keeps: keys come from the sequence and
        equal the row's `id`, every row holds values within the column
        widths, and usernames are unique across the whole table. */
    ghost predicate Valid()
      reads this
    {
      && nextId >= 1
      && (forall k | k in rows :: k < nextId && rows[k].id == Some(k) && WithinWidths(rows[k]))
      && UniqueUsernames(rows)
    }

    /** Every stored row also passes the `@Length` rules. The store does not
        enforce this; the handlers keep it. */
    ghost predicate AllValidated()
      reads this
    {
      forall k | k in rows :: IsValid(rows[k])
    }

    /** An empty table whose key sequence starts at 1. */
    constructor ()
      ensures Valid() && AllValidated()
      ensures rows == map[] && nextId == 1
    {
      rows := map[];
      nextId := 1;
    }

    /** `find()`: the live rows. */
    method Find() returns (users: set<User>)
      ensures forall u :: u in users <==> exists k :: LiveIn(rows, k) && rows[k] == u
    {
      users := set k | k in rows && LiveIn(rows, k) :: rows[k];
    }

    /** `findOne(id)`: the row with that key, unless it is soft-deleted. */
    method FindOne(id: nat) returns (user: Option<User>)
      ensures user == if LiveIn(rows, id) then Some(rows[id]) else None
    {
      user := if LiveIn(rows, id) then Some(rows[id]) else None;
    }

    /** `findOne({ where: { username, password } })`: a live row with exactly
        these two values, if there is one. */
    method FindByCredentials(username: Option<string>, password: Option<string>) returns (user: Option<User>)
      ensures user.None? <==> forall k | k in rows :: !MatchesCredentials(rows[k], username, password)
      ensures user.Some? ==> exists k :: k in rows && user.value == rows[k] && MatchesCredentials(rows[k], username, password)
    {
      if k :| k in rows && MatchesCredentials(rows[k], username, password) {
        user := Some(rows[k]);
      } else {
        user := None;
      }
    }

    /** `save(user)`. An entity without an id is inserted under the next key;
        one loaded from the table is written back with its update-date column
        refreshed, unless nothing changed, in which case no UPDATE is issued.
        A write that breaks a constraint fails and changes nothing. The
        result is the entity as the caller holds it; the row is its stored
        form, which differs where a value was cut to its width. */
    method Save(u: User, now: Time) returns (r: Result<User, StoreError>)
      requires Valid()
      requires u.id.Some? ==> u.id.value in rows
      modifies this
      ensures Valid()
      ensures u.id.Some? && u == old(rows)[u.id.value] ==>
        r == Success(u) && rows == old(rows) && nextId == old(nextId)
      ensures !(u.id.Some? && u == old(rows)[u.id.value]) && Rejection(old(rows), u, u.id).Some? ==>
        r == Failure(Rejection(old(rows), u, u.id).value) && rows == old(rows) && nextId == old(nextId)
      ensures u.id.None? && Rejection(old(rows), u, None).None? ==>
        && r == Success(u.(id := Some(old(nextId))))
        && rows == old(rows)[old(nextId) := Stored(r.value)]
        && nextId == old(nextId) + 1
      ensures u.id.Some? && u != old(rows)[u.id.value] && Rejection(old(rows), u, u.id).None? ==>
        && r == Success(u.(updatedAt := Some(now)))
        && rows == old(rows)[u.id.value := Stored(r.value)]
        && nextId == old(nextId)
    {
      if u.id.Some? && u == rows[u.id.value] {
        r := Success(u);
        return;
      }
      var e := Rejection(rows, u, u.id);
      if e.Some? {
        r := Failure(e.value);
      } else if u.id.None? {
        var saved := u.(id := Some(nextId));
        rows := rows[nextId := Stored(saved)];
        nextId := nextId + 1;
        r := Success(saved);
      } else {
        var saved := u.(updatedAt := Some(now));
        rows := rows[u.id.value := Stored(saved)];
        r := Success(saved);
      }
    }

    /** `softDelete(id)`: an UPDATE that sets the delete-date and update-date
        columns of the row with that key; no other row changes. */
    method SoftDelete(id: nat, now: Time)
      requires Valid()
      modifies this
      ensures Valid()
      ensures rows == if id in old(rows) then old(rows)[id := SoftDeleted(old(rows)[id], now)] else old(rows)
      ensures nextId == old(nextId)
    {
      if id in rows {
        rows := rows[id := SoftDeleted(rows[id], now)];
      }
    }
  }
}

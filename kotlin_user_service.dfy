/** The users table of the Kotlin port
    (`backend/src/main/kotlin/com/booktracker/service/UserService.kt` over
    the `Users` table of `model/Tables.kt`). Its rows have their own shape
    (text timestamps, no verification or reset fields), ids come from the
    table's own counter, and the email column carries a unique index: a
    write that would duplicate an email raises an exception inside the
    transaction instead of returning. */
module KotlinUserService {
  import opened Common
  import opened Credentials
  import Collections

  datatype User = User(
    id: nat,
    email: string,
    passwordHash: PasswordHash,
    firstName: string,
    lastName: string,
    isAdmin: bool,
    createdAt: string,
    updatedAt: string)

  datatype CreateUserRequest = CreateUserRequest(email: string, password: string, firstName: string, lastName: string)

  datatype UpdateUserRequest = UpdateUserRequest(email: string, firstName: string, lastName: string, isAdmin: bool)

  /** How a call inside `transaction { ... }` ends: with a value, or with
      an exception (the one the model raises is the unique index's). */
  datatype Outcome<T> = Returned(value: T) | Threw

  predicate Keyed(rows: map<nat, User>)
  {
    forall k :: k in rows ==> rows[k].id == k
  }

  predicate UniqueEmails(rows: map<nat, User>)
  {
    forall a, b :: a in rows && b in rows && rows[a].email == rows[b].email ==> a == b
  }

  /** Some row other than `except` holds the email. */
  predicate EmailHeldByOther(rows: map<nat, User>, email: string, except: Option<nat>)
  {
    exists k :: k in rows && rows[k].email == email && Some(k) != except
  }

  class UsersTable {
    var rows: map<nat, User>
    var nextId: nat

    /** Rows are stored under their own positive id, below the counter,
        and no two rows share an email. */
    ghost predicate Valid()
      reads this
    {
      && Keyed(rows) && (forall k :: k in rows ==> 0 < k < nextId)
      && UniqueEmails(rows) && 0 < nextId
    }

    constructor ()
      ensures Valid() && rows == map[]
    {
      rows := map[];
      nextId := 1;
    }
  }

  /** `select { Users.email eq email }.singleOrNull()`: the row when
      exactly one matches, otherwise nothing. */
  function GetUserByEmail(rows: map<nat, User>, email: string): (r: Option<User>)
    ensures r.Some? ==> r.value in rows.Values && r.value.email == email
    ensures UniqueEmails(rows) ==> (r.Some? <==> EmailHeldByOther(rows, email, None))
  {
    var matches := set k | k in rows && rows[k].email == email;
    assert UniqueEmails(rows) && EmailHeldByOther(rows, email, None) ==> |matches| == 1 by {
      if UniqueEmails(rows) && EmailHeldByOther(rows, email, None) {
        var k :| k in rows && rows[k].email == email;
        assert matches == {k};
      }
    }
    if |matches| == 1 then Some(rows[Collections.Least(matches)]) else None
  }

  /** `select { Users.id eq id }.singleOrNull()` */
  function GetUserById(rows: map<nat, User>, id: nat): (r: Option<User>)
    ensures r.Some? <==> id in rows
    ensures r.Some? ==> r.value == rows[id]
  {
    if id in rows then Some(rows[id]) else None
  }

  /** `selectAll()`, read in id order: every row once. */
  function GetAllUsers(rows: map<nat, User>): (r: seq<User>)
    ensures |r| == |rows|
    ensures forall u :: u in r ==> u in rows.Values
    ensures forall k :: k in rows ==> rows[k] in r
  {
    Collections.RowsAtSortedKeys(rows, rows.Keys);
    Collections.RowsAt(rows, Collections.SortedKeys(rows.Keys))
  }

  /** A user added under a new id with a new email is the one its email
      finds afterwards, and emails stay unique. */
  lemma InsertedUserIsFound(rows: map<nat, User>, u: User)
    requires UniqueEmails(rows) && u.id !in rows && !EmailHeldByOther(rows, u.email, None)
    ensures UniqueEmails(rows[u.id := u])
    ensures GetUserByEmail(rows[u.id := u], u.email) == Some(u)
    ensures GetUserById(rows[u.id := u], u.id) == Some(u)
  {
    var after := rows[u.id := u];
    assert (set k | k in after && after[k].email == u.email) == {u.id};
  }

  /** `createUser`: inserts a non-admin user created and updated at the
      same instant and returns exactly what it inserted. There is no
      duplicate check of its own: an email already present makes the
      unique index throw and nothing is inserted. */
  method CreateUser(table: UsersTable, request: CreateUserRequest, passwordHash: PasswordHash, now: string)
    returns (r: Outcome<User>)
    requires table.Valid()
    modifies table
    ensures table.Valid()
    ensures EmailHeldByOther(old(table.rows), request.email, None) ==>
      r == Threw && table.rows == old(table.rows) && table.nextId == old(table.nextId)
    ensures !EmailHeldByOther(old(table.rows), request.email, None) ==>
      && r == Returned(User(old(table.nextId), request.email, passwordHash, request.firstName, request.lastName,
                            false, now, now))
      && table.rows == old(table.rows)[r.value.id := r.value]
      && GetUserByEmail(table.rows, request.email) == Some(r.value)
  {
    if EmailHeldByOther(table.rows, request.email, None) {
      return Threw;
    }
    var id := table.nextId;
    var user := User(id, request.email, passwordHash, request.firstName, request.lastName, false, now, now);
    InsertedUserIsFound(table.rows, user);
    table.rows := table.rows[id := user];
    table.nextId := table.nextId + 1;
    r := Returned(user);
  }

  /** `updateUser`: when the id has a row, its email, names and admin flag
      are overwritten and the row is read back; when it has none, nothing
      changes and the answer is null. An email that another row holds
      makes the unique index throw. */
  method UpdateUser(table: UsersTable, id: nat, request: UpdateUserRequest, now: string)
    returns (r: Outcome<Option<User>>)
    requires table.Valid()
    modifies table`rows
    ensures table.Valid()
    ensures id !in old(table.rows) ==> r == Returned(None) && table.rows == old(table.rows)
    ensures id in old(table.rows) && EmailHeldByOther(old(table.rows), request.email, Some(id)) ==>
      r == Threw && table.rows == old(table.rows)
    ensures id in old(table.rows) && !EmailHeldByOther(old(table.rows), request.email, Some(id)) ==>
      var updated := old(table.rows)[id].(email := request.email, firstName := request.firstName,
                                          lastName := request.lastName, isAdmin := request.isAdmin,
                                          updatedAt := now);
      && table.rows == old(table.rows)[id := updated]
      && r == Returned(Some(updated))
  {
    if id !in table.rows {
      return Returned(None);
    }
    if EmailHeldByOther(table.rows, request.email, Some(id)) {
      return Threw;
    }
    var row := table.rows[id];
    table.rows := table.rows[id := row.(email := request.email, firstName := request.firstName,
                                        lastName := request.lastName, isAdmin := request.isAdmin,
                                        updatedAt := now)];
    r := Returned(GetUserById(table.rows, id));
  }

  /** `deleteUser`: true exactly when a row was deleted. */
  method DeleteUser(table: UsersTable, id: nat) returns (deleted: bool)
    requires table.Valid()
    modifies table`rows
    ensures table.Valid()
    ensures deleted <==> id in old(table.rows)
    ensures table.rows == old(table.rows) - {id}
  {
    deleted := id in table.rows;
    table.rows := table.rows - {id};
  }
}

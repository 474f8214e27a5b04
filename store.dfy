/** The database: one table per record kind, keyed by primary key, and the
    autoincrement counter that hands out new keys. */
module Store {
  import opened Common
  import opened Records

  /** The unique index on `users.email`. */
  predicate UniqueEmails(users: map<nat, User>)
  {
    forall a, b :: a in users && b in users && users[a].email == users[b].email ==> a == b
  }

  predicate EmailTaken(users: map<nat, User>, email: string)
  {
    exists k :: k in users && users[k].email == email
  }

  /** `WHERE email = ?`: the unique index leaves at most one row to find. */
  function UserByEmail(users: map<nat, User>, email: string): (r: Option<User>)
    requires UniqueEmails(users)
    ensures r.Some? <==> EmailTaken(users, email)
    ensures r.Some? ==> r.value in users.Values && r.value.email == email
    ensures forall k :: k in users && users[k].email == email ==> r == Some(users[k])
  {
    if EmailTaken(users, email) then
      var k :| k in users && users[k].email == email;
      Some(users[k])
    else
      None
  }

  /** A row granting `userId` exactly the level `t` on `childId`. */
  predicate HasPermissionRow(permissions: map<nat, Permission>, userId: nat, childId: nat, t: PermType)
  {
    exists k :: k in permissions && permissions[k].userId == userId
      && permissions[k].childId == childId && permissions[k].permissionType == t
  }

  /** Any row at all for the pair (the join the visibility queries use). */
  predicate HasAnyPermissionRow(permissions: map<nat, Permission>, userId: nat, childId: nat)
  {
    exists k :: k in permissions && permissions[k].userId == userId && permissions[k].childId == childId
  }

  predicate UsersKeyed(m: map<nat, User>) { forall k :: k in m ==> m[k].id == k }
  predicate ChildrenKeyed(m: map<nat, Child>) { forall k :: k in m ==> m[k].id == k }
  predicate BooksKeyed(m: map<nat, Book>) { forall k :: k in m ==> m[k].id == k }
  predicate SharedBooksKeyed(m: map<nat, SharedBook>) { forall k :: k in m ==> m[k].id == k }
  predicate PermissionsKeyed(m: map<nat, Permission>) { forall k :: k in m ==> m[k].id == k }
  predicate InvitationsKeyed(m: map<nat, Invitation>) { forall k :: k in m ==> m[k].id == k }

  /** Every key is positive and below the counter. */
  predicate KeysBelow<T>(m: map<nat, T>, bound: nat)
  {
    forall k :: k in m ==> 0 < k < bound
  }

  class Db {
    var users: map<nat, User>
    var children: map<nat, Child>
    var books: map<nat, Book>
    var sharedBooks: map<nat, SharedBook>
    var permissions: map<nat, Permission>
    var invitations: map<nat, Invitation>
    var nextId: nat

    /** Every row is stored under its own positive id, every id was handed
        out by the counter, and emails are unique. */
    ghost predicate Valid()
      reads this
    {
      && UsersKeyed(users) && KeysBelow(users, nextId)
      && ChildrenKeyed(children) && KeysBelow(children, nextId)
      && BooksKeyed(books) && KeysBelow(books, nextId)
      && SharedBooksKeyed(sharedBooks) && KeysBelow(sharedBooks, nextId)
      && PermissionsKeyed(permissions) && KeysBelow(permissions, nextId)
      && InvitationsKeyed(invitations) && KeysBelow(invitations, nextId)
      && UniqueEmails(users)
      && 0 < nextId
    }

    constructor ()
      ensures Valid()
      ensures users == map[] && children == map[] && books == map[] && sharedBooks == map[]
      ensures permissions == map[] && invitations == map[]
    {
      users, children, books, sharedBooks := map[], map[], map[], map[];
      permissions, invitations := map[], map[];
      nextId := 1;
    }

    /** The next autoincrement key: positive and used by no table. */
    method NewId() returns (id: nat)
      requires Valid()
      modifies this`nextId
      ensures Valid() && 0 < id && id == old(nextId) && nextId == id + 1
      ensures id !in users && id !in children && id !in books && id !in sharedBooks
      ensures id !in permissions && id !in invitations
    {
      id := nextId;
      nextId := nextId + 1;
    }
  }
}

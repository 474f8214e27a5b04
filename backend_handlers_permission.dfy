/** The permission routes of `backend/handlers/permission.go`: listing who
    may see a child (editors only) and revoking one grant by its id. */
module BackendPermissionHandlers {
  import opened Common
  import opened Text
  import opened Records
  import opened Store
  import opened AuthMiddleware
  import opened Handlers
  import ChildService
  import PermissionService

  /** The user part of a listed grant: only these four fields are filled. */
  datatype GranteeResponse = GranteeResponse(id: nat, email: string, firstName: string, lastName: string)

  datatype PermissionResponse = PermissionResponse(
    id: nat,
    userId: nat,
    childId: nat,
    permissionType: PermType,
    createdAt: int,
    user: GranteeResponse)

  /** One grant with the details of the user holding it. */
  function EntryOf(p: Permission, u: User): PermissionResponse
  {
    PermissionResponse(p.id, p.userId, p.childId, p.permissionType, p.createdAt,
                       GranteeResponse(u.id, u.email, u.firstName, u.lastName))
  }

  /** The listing of `rows`: in order, one entry per row whose user can be
      looked up; a row whose user is gone is left out without an error. */
  function Listing(rows: seq<Permission>, users: map<nat, User>): seq<PermissionResponse>
  {
    if rows == [] then []
    else
      var last := rows[|rows| - 1];
      Listing(rows[..|rows| - 1], users) + (if last.userId in users then [EntryOf(last, users[last.userId])] else [])
  }

  /** An entry is listed exactly when it describes a row of `rows` and that
      row's user. */
  lemma {:induction false} ListingExactly(rows: seq<Permission>, users: map<nat, User>, e: PermissionResponse)
    ensures e in Listing(rows, users) <==> exists p :: p in rows && p.userId in users && e == EntryOf(p, users[p.userId])
    ensures |Listing(rows, users)| <= |rows|
  {
    if rows != [] {
      var front, last := rows[..|rows| - 1], rows[|rows| - 1];
      ListingExactly(front, users, e);
      assert rows == front + [last];
      if exists p :: p in rows && p.userId in users && e == EntryOf(p, users[p.userId]) {
        var p :| p in rows && p.userId in users && e == EntryOf(p, users[p.userId]);
        if p != last {
          assert p in front;
        }
      }
    }
  }

  /** The append loop of `GetPermissionsByChild`. */
  method BuildListing(rows: seq<Permission>, users: map<nat, User>) returns (r: seq<PermissionResponse>)
    ensures r == Listing(rows, users)
  {
    r := [];
    var i := 0;
    while i < |rows|
      invariant 0 <= i <= |rows|
      invariant r == Listing(rows[..i], users)
    {
      assert rows[..i + 1][..i] == rows[..i];
      var p := rows[i];
      if p.userId in users {
        var user := users[p.userId];
        r := r + [EntryOf(p, user)];
      }
      i := i + 1;
    }
    assert rows[..|rows|] == rows;
  }

  /** `GetPermissionsByChild`: EDIT on the child is required; then every
      grant on that child whose user still exists is listed. The list is
      appended to from a nil slice, so an empty listing is `null`. */
  method GetPermissionsByChild(db: Db, ctx: RequestContext, childIdParam: string)
    returns (r: Reply<JsonList<PermissionResponse>>)
    requires db.Valid()
    ensures var guard := PermissionGuard(db.children, db.permissions, ctx, childIdParam, Edit);
      && (guard.Refused? ==> r == Refused(guard.status, guard.message))
      && (guard.Answered? ==>
            && r.Answered? && r.status == StatusOK
            && r.value == ListOf(Listing(PermissionService.GetPermissionsByChild(db.permissions, guard.value.1),
                                         db.users))
            && forall e :: e in Elements(r.value) <==>
                 (exists k :: k in db.permissions && db.permissions[k].childId == guard.value.1
                              && db.permissions[k].userId in db.users
                              && e == EntryOf(db.permissions[k], db.users[db.permissions[k].userId])))
  {
    var guard := PermissionGuard(db.children, db.permissions, ctx, childIdParam, Edit);
    if guard.Refused? {
      return Refused(guard.status, guard.message);
    }
    var rows := PermissionService.GetPermissionsByChild(db.permissions, guard.value.1);
    var listing := BuildListing(rows, db.users);
    ListedGrantsOfChild(db.permissions, db.users, guard.value.1);
    r := Answered(StatusOK, ListOf(listing));
  }

  /** The listing of a child's rows holds exactly that child's grants
      whose users exist. */
  lemma ListedGrantsOfChild(permissions: map<nat, Permission>, users: map<nat, User>, childId: nat)
    requires PermissionsKeyed(permissions)
    ensures var listing := Listing(PermissionService.GetPermissionsByChild(permissions, childId), users);
      forall e :: e in listing <==>
        (exists k :: k in permissions && permissions[k].childId == childId && permissions[k].userId in users
                     && e == EntryOf(permissions[k], users[permissions[k].userId]))
  {
    var rows := PermissionService.GetPermissionsByChild(permissions, childId);
    forall e
      ensures e in Listing(rows, users) <==>
        (exists k :: k in permissions && permissions[k].childId == childId && permissions[k].userId in users
                     && e == EntryOf(permissions[k], users[permissions[k].userId]))
    {
      ListingExactly(rows, users, e);
      if exists k :: k in permissions && permissions[k].childId == childId && permissions[k].userId in users
                     && e == EntryOf(permissions[k], users[permissions[k].userId]) {
        var k :| k in permissions && permissions[k].childId == childId && permissions[k].userId in users
                 && e == EntryOf(permissions[k], users[permissions[k].userId]);
        assert permissions[k] in rows;
      }
      if e in Listing(rows, users) {
        var p :| p in rows && p.userId in users && e == EntryOf(p, users[p.userId]);
        assert p.id in permissions && permissions[p.id] == p;
      }
    }
  }

  const InvalidPermissionId: string := "Invalid permission ID"
  const PermissionNotFound: string := "Permission not found"

  /** The guard of `DeletePermissionByID`: a caller, a path id, a row with
      that id (404), and EDIT on the row's child (403). The answer is the
      row's id. */
  function DeletePermissionGuard(children: map<nat, Child>, permissions: map<nat, Permission>, ctx: RequestContext,
                                 idParam: string): (r: Reply<nat>)
    ensures r.Answered? <==> (GetCurrentUserID(ctx).1 && ParseUint32(idParam).Some?
                              && ParseUint32(idParam).value in permissions
                              && ChildService.CheckChildPermission(children, permissions, GetCurrentUserID(ctx).0,
                                   permissions[ParseUint32(idParam).value].childId, Edit) == Ok(true))
    ensures r.Answered? ==> r == Answered(StatusNoContent, ParseUint32(idParam).value)
    ensures !GetCurrentUserID(ctx).1 ==> r == Refused(StatusUnauthorized, NoCurrentUser)
    ensures GetCurrentUserID(ctx).1 && ParseUint32(idParam).None? ==> r == Refused(StatusBadRequest, InvalidPermissionId)
    ensures (GetCurrentUserID(ctx).1 && ParseUint32(idParam).Some? && ParseUint32(idParam).value !in permissions)
      ==> r == Refused(StatusNotFound, PermissionNotFound)
  {
    var (userId, ok) := GetCurrentUserID(ctx);
    if !ok then Refused(StatusUnauthorized, NoCurrentUser)
    else match ParseUint32(idParam)
      case None => Refused(StatusBadRequest, InvalidPermissionId)
      case Some(id) =>
        match PermissionService.GetPermissionByID(permissions, id)
        case Err(_) => Refused(StatusNotFound, PermissionNotFound)
        case Ok(p) =>
          match ChildService.CheckChildPermission(children, permissions, userId, p.childId, Edit)
          case Err(e) => Refused(StatusInternalServerError, FailedToCheckPermission + e)
          case Ok(allowed) =>
            if !allowed then Refused(StatusForbidden, AccessDenied) else Answered(StatusNoContent, id)
  }

  /** `DeletePermissionByID`: the row goes only when the guard passes, and
      no other row changes. */
  method DeletePermissionByID(db: Db, ctx: RequestContext, idParam: string) returns (r: Reply<()>)
    requires db.Valid()
    modifies db`permissions
    ensures db.Valid()
    ensures var guard := DeletePermissionGuard(db.children, old(db.permissions), ctx, idParam);
      && (guard.Refused? ==> r == Refused(guard.status, guard.message) && db.permissions == old(db.permissions))
      && (guard.Answered? ==> r == Answered(StatusNoContent, ()) && db.permissions == old(db.permissions) - {guard.value})
  {
    var guard := DeletePermissionGuard(db.children, db.permissions, ctx, idParam);
    if guard.Refused? {
      return Refused(guard.status, guard.message);
    }
    PermissionService.DeletePermissionByID(db, guard.value);
    r := Answered(StatusNoContent, ());
  }

  /** Any editor of a child may revoke any grant on it, the grants of
      other editors included. */
  lemma EditorMayRevoke(children: map<nat, Child>, permissions: map<nat, Permission>, ctx: RequestContext,
                        idParam: string, editorRow: nat)
    requires GetCurrentUserID(ctx).1 && ParseUint32(idParam).Some? && ParseUint32(idParam).value in permissions
    requires permissions[ParseUint32(idParam).value].childId in children
    requires editorRow in permissions && permissions[editorRow].userId == GetCurrentUserID(ctx).0
    requires permissions[editorRow].childId == permissions[ParseUint32(idParam).value].childId
    requires permissions[editorRow].permissionType == Edit
    ensures DeletePermissionGuard(children, permissions, ctx, idParam).Answered?
  {
    assert HasPermissionRow(permissions, GetCurrentUserID(ctx).0, permissions[editorRow].childId, Edit);
  }

  /** A grant left behind by a deleted child can no longer be revoked:
      the check fails with the lookup error. */
  lemma OrphanGrantCannotBeRevoked(children: map<nat, Child>, permissions: map<nat, Permission>,
                                   ctx: RequestContext, idParam: string)
    requires GetCurrentUserID(ctx).1 && ParseUint32(idParam).Some? && ParseUint32(idParam).value in permissions
    requires permissions[ParseUint32(idParam).value].childId !in children
    ensures DeletePermissionGuard(children, permissions, ctx, idParam)
      == Refused(StatusInternalServerError, FailedToCheckPermission + "record not found")
  {
  }
}

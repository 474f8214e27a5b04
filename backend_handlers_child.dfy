/** The child routes of `backend/handlers/child.go`: reading and editing a
    child behind the permission guard, owner-only deletion, the three-way
    invitation, and the month count endpoints. */
module BackendChildHandlers {
  import opened Common
  import opened Text
  import opened Records
  import opened Store
  import opened Tokens
  import opened AuthMiddleware
  import opened Handlers
  import ChildService
  import BackendChildService
  import UserService
  import PermissionService
  import InvitationService
  import BookQueries

  /** `ChildResponse` of this backend: the two name fields, no `name`. */
  datatype ChildResponse = ChildResponse(id: nat, firstName: string, lastName: string, grade: string,
                                         ownerId: nat, createdAt: int)

  function ChildResponseOf(c: Child): ChildResponse
  {
    ChildResponse(c.id, c.firstName, c.lastName, c.grade, c.ownerId, c.createdAt)
  }

  /** `GetChildByID`: VIEW is required, and the answer describes the child
      the path names. */
  function GetChildByID(children: map<nat, Child>, permissions: map<nat, Permission>, ctx: RequestContext,
                        idParam: string): (r: Reply<ChildResponse>)
    requires ChildrenKeyed(children)
    ensures r.Answered? <==> PermissionGuard(children, permissions, ctx, idParam, View).Answered?
    ensures r.Refused? ==> var g := PermissionGuard(children, permissions, ctx, idParam, View);
                           g.Refused? && r.status == g.status && r.message == g.message
    ensures r.Answered? ==> (r.status == StatusOK && r.value.id == ParseUint32(idParam).value
                             && r.value == ChildResponseOf(children[r.value.id]))
  {
    match PermissionGuard(children, permissions, ctx, idParam, View)
    case Refused(status, message) => Refused(status, message)
    case Answered(_, ids) =>
      match ChildService.GetChildByID(children, ids.1)
      case Err(e) => Refused(StatusNotFound, e)
      case Ok(child) => Answered(StatusOK, ChildResponseOf(child))
  }

  /** The editable fields of a child in this backend. */
  datatype UpdateChildBody = UpdateChildBody(firstName: string, lastName: string, grade: string)

  /** `UpdateChild`: EDIT is required and checked before the body is read;
      only then are the names and grade overwritten. Any refusal leaves the
      table as it was. */
  method UpdateChild(db: Db, ctx: RequestContext, idParam: string, body: Option<UpdateChildBody>, now: int)
    returns (r: Reply<ChildResponse>)
    requires db.Valid()
    modifies db`children
    ensures db.Valid()
    ensures var guard := PermissionGuard(old(db.children), db.permissions, ctx, idParam, Edit);
      && (guard.Refused? ==> r == Refused(guard.status, guard.message))
      && (guard.Answered? && body.None? ==> r == Refused(StatusBadRequest, InvalidRequestData))
      && (r.Answered? <==> guard.Answered? && body.Some?)
    ensures r.Refused? ==> db.children == old(db.children)
    ensures r.Answered? ==>
      var id := ParseUint32(idParam).value;
      var updated := old(db.children)[id].(firstName := body.value.firstName, lastName := body.value.lastName,
                                           grade := body.value.grade, updatedAt := now);
      && db.children == old(db.children)[id := updated]
      && r == Answered(StatusOK, ChildResponseOf(updated))
  {
    var guard := PermissionGuard(db.children, db.permissions, ctx, idParam, Edit);
    if guard.Refused? {
      return Refused(guard.status, guard.message);
    }
    if body.None? {
      return Refused(StatusBadRequest, InvalidRequestData);
    }
    var req := body.value;
    // The guard has found the child, so the service's not-found error
    // cannot arise here.
    var child := BackendChildService.UpdateChild(db, guard.value.1, req.firstName, req.lastName, req.grade, now);
    r := Answered(StatusOK, ChildResponseOf(child.value));
  }

  const OnlyOwnerDeletes: string := "Only the owner can delete a child"

  /** The guard of `DeleteChild`, shared word for word by the `backend-go`
      handler: a caller, a path id, a child that exists (404 otherwise),
      and the caller must own it (403 otherwise, whatever rows they hold).
      The answer is the id to delete. */
  function DeleteChildGuard(children: map<nat, Child>, ctx: RequestContext, idParam: string): (r: Reply<nat>)
    ensures r.Answered? <==> (GetCurrentUserID(ctx).1 && ParseUint32(idParam).Some?
                              && ParseUint32(idParam).value in children
                              && children[ParseUint32(idParam).value].ownerId == GetCurrentUserID(ctx).0)
    ensures r.Answered? ==> r == Answered(StatusNoContent, ParseUint32(idParam).value)
    ensures (GetCurrentUserID(ctx).1 && ParseUint32(idParam).Some? && ParseUint32(idParam).value in children
             && children[ParseUint32(idParam).value].ownerId != GetCurrentUserID(ctx).0)
      ==> r == Refused(StatusForbidden, OnlyOwnerDeletes)
    ensures (GetCurrentUserID(ctx).1 && ParseUint32(idParam).Some? && ParseUint32(idParam).value !in children)
      ==> r == Refused(StatusNotFound, "child not found")
  {
    var (userId, ok) := GetCurrentUserID(ctx);
    if !ok then Refused(StatusUnauthorized, NoCurrentUser)
    else match ParseUint32(idParam)
      case None => Refused(StatusBadRequest, InvalidChildId)
      case Some(id) =>
        match ChildService.GetChildByID(children, id)
        case Err(e) => Refused(StatusNotFound, e)
        case Ok(child) =>
          if child.ownerId != userId then Refused(StatusForbidden, OnlyOwnerDeletes)
          else Answered(StatusNoContent, id)
  }

  /** `DeleteChild`: the row goes only when the guard passes. */
  method DeleteChild(db: Db, ctx: RequestContext, idParam: string) returns (r: Reply<()>)
    requires db.Valid()
    modifies db`children
    ensures db.Valid()
    ensures var guard := DeleteChildGuard(old(db.children), ctx, idParam);
      && (guard.Refused? ==> r == Refused(guard.status, guard.message) && db.children == old(db.children))
      && (guard.Answered? ==> r == Answered(StatusNoContent, ()) && db.children == old(db.children) - {guard.value})
  {
    var guard := DeleteChildGuard(db.children, ctx, idParam);
    if guard.Refused? {
      return Refused(guard.status, guard.message);
    }
    // The guard has found the child, so the delete cannot miss it.
    var _ := ChildService.DeleteChild(db, guard.value);
    r := Answered(StatusNoContent, ());
  }

  /** Holding EDIT on a child is not enough to delete it. */
  lemma EditGranteeCannotDelete(children: map<nat, Child>, permissions: map<nat, Permission>,
                                ctx: RequestContext, idParam: string)
    requires PermissionGuard(children, permissions, ctx, idParam, Edit).Answered?
    requires children[ParseUint32(idParam).value].ownerId != GetCurrentUserID(ctx).0
    ensures DeleteChildGuard(children, ctx, idParam) == Refused(StatusForbidden, OnlyOwnerDeletes)
  {
  }

  /** The body of an invitation, before binding. */
  datatype InviteBody = InviteBody(email: string, permissionType: string)

  /** The body once bound: a present email and one of the two levels. */
  function BindInvite(body: Option<InviteBody>): (r: Option<(string, PermType)>)
    ensures r.Some? <==> body.Some? && Records.BindPermissionType(body.value.email, body.value.permissionType).Some?
    ensures r.Some? ==> r.value.0 == body.value.email && r.value.0 != ""
                        && PermTypeName(r.value.1) == body.value.permissionType
  {
    match body
    case None => None
    case Some(b) =>
      match Records.BindPermissionType(b.email, b.permissionType)
      case None => None
      case Some(t) => Some((b.email, t))
  }

  /** What `InviteUser` settles on before it writes anything. */
  datatype InviteStep =
    | Stop(status: int, message: string)
    | InviteByEmail(inviterId: nat, childId: nat, email: string, permissionType: PermType)
    | GrantExisting(targetId: nat, childId: nat, permissionType: PermType)

  const ChildNotFound: string := "Child not found"
  const OnlyOwnerInvites: string := "Only the owner can invite users to access this child"
  const AlreadyHasAccess: string := "User already has access to this child"
  const PermissionGranted: string := "Permission granted to existing user"

  /** The caller owns the child the path names, and the body binds. */
  predicate OwnerInvites(children: map<nat, Child>, ctx: RequestContext, childIdParam: string,
                         body: Option<InviteBody>)
  {
    && GetCurrentUserID(ctx).1 && ParseUint32(childIdParam).Some? && BindInvite(body).Some?
    && ParseUint32(childIdParam).value in children
    && children[ParseUint32(childIdParam).value].ownerId == GetCurrentUserID(ctx).0
  }

  /** The decisions of `InviteUser`, in the handler's order. Only the
      owner gets past the guards. An email with no account becomes a
      pending invitation; a registered user who can already view the child
      (the owner included) is refused; anyone else is granted the level. */
  function InviteUserStep(children: map<nat, Child>, users: map<nat, User>, permissions: map<nat, Permission>,
                          ctx: RequestContext, childIdParam: string, body: Option<InviteBody>): (d: InviteStep)
    requires UniqueEmails(users) && UsersKeyed(users)
    ensures !d.Stop? ==> OwnerInvites(children, ctx, childIdParam, body)
    ensures !d.Stop? ==> d.childId == ParseUint32(childIdParam).value
    ensures d.InviteByEmail? <==> (OwnerInvites(children, ctx, childIdParam, body)
                                   && !EmailTaken(users, BindInvite(body).value.0))
    ensures d.InviteByEmail? ==> (d.inviterId == GetCurrentUserID(ctx).0 && d.email == BindInvite(body).value.0
                                  && d.permissionType == BindInvite(body).value.1)
    ensures d.GrantExisting? <==> (OwnerInvites(children, ctx, childIdParam, body)
                                   && EmailTaken(users, BindInvite(body).value.0)
                                   && var target := UserService.GetUserByEmail(users, BindInvite(body).value.0).value;
                                      ChildService.CheckChildPermission(children, permissions, target.id,
                                                                        ParseUint32(childIdParam).value, View)
                                        == Ok(false))
    ensures d.GrantExisting? ==> (d.targetId in users && users[d.targetId].email == BindInvite(body).value.0
                                  && d.permissionType == BindInvite(body).value.1)
  {
    var (userId, ok) := GetCurrentUserID(ctx);
    if !ok then Stop(StatusUnauthorized, NoCurrentUser)
    else match ParseUint32(childIdParam)
      case None => Stop(StatusBadRequest, InvalidChildId)
      case Some(childId) =>
        match BindInvite(body)
        case None => Stop(StatusBadRequest, InvalidRequestData)
        case Some(req) =>
          match ChildService.GetChildByID(children, childId)
          case Err(_) => Stop(StatusNotFound, ChildNotFound)
          case Ok(child) =>
            if child.ownerId != userId then Stop(StatusForbidden, OnlyOwnerInvites)
            else match UserService.GetUserByEmail(users, req.0)
              case Err(_) => InviteByEmail(userId, childId, req.0, req.1)
              case Ok(target) =>
                match ChildService.CheckChildPermission(children, permissions, target.id, childId, View)
                case Err(e) => Stop(StatusInternalServerError, "Failed to check existing permissions: " + e)
                case Ok(has) =>
                  if has then Stop(StatusBadRequest, AlreadyHasAccess) else GrantExisting(target.id, childId, req.1)
  }

  /** Inviting oneself, or anyone who already holds a row on the child, is
      refused with 400 and writes nothing. */
  lemma ReinviteRefused(children: map<nat, Child>, users: map<nat, User>, permissions: map<nat, Permission>,
                        ctx: RequestContext, childIdParam: string, body: Option<InviteBody>, target: nat)
    requires UniqueEmails(users) && UsersKeyed(users)
    requires OwnerInvites(children, ctx, childIdParam, body)
    requires target in users && users[target].email == BindInvite(body).value.0
    requires target == GetCurrentUserID(ctx).0
             || HasAnyPermissionRow(permissions, target, ParseUint32(childIdParam).value)
    ensures InviteUserStep(children, users, permissions, ctx, childIdParam, body) == Stop(StatusBadRequest, AlreadyHasAccess)
  {
    var childId := ParseUint32(childIdParam).value;
    var found := UserService.GetUserByEmail(users, BindInvite(body).value.0);
    assert found == Ok(users[target]);
    if target != GetCurrentUserID(ctx).0 {
      var k :| k in permissions && permissions[k].userId == target && permissions[k].childId == childId;
      assert HasPermissionRow(permissions, target, childId, permissions[k].permissionType);
    }
  }

  /** The answer once a pending invitation has been written: the inviter
      is looked up for the email, and the email is sent (`mailError` is the
      mail service's failure, if any). The invitation stays written even
      when a later step fails. */
  function PendingInviteReply(users: map<nat, User>, inviterId: nat, email: string, mailError: Option<string>)
    : (r: Reply<string>)
    ensures r.Answered? <==> inviterId in users && mailError.None?
    ensures r.Answered? ==> r.status == StatusOK
    ensures r.Refused? ==> r.status == StatusInternalServerError
  {
    match UserService.GetUserByID(users, inviterId)
    case Err(e) => Refused(StatusInternalServerError, "Failed to get current user: " + e)
    case Ok(_) =>
      match mailError
      case Some(e) => Refused(StatusInternalServerError, "Failed to send invitation email: " + e)
      case None => Answered(StatusOK, "Invitation sent to " + email
                                      + ". They will need to register to access the child's data.")
  }

  /** `InviteUser`: the decision, then exactly its write. */
  method InviteUser(db: Db, ctx: RequestContext, childIdParam: string, body: Option<InviteBody>,
                    random: RandomRead, mailError: Option<string>, now: int) returns (r: Reply<string>)
    requires db.Valid()
    modifies db`permissions, db`invitations, db`nextId
    ensures db.Valid()
    ensures var d := InviteUserStep(db.children, old(db.users), old(db.permissions), ctx, childIdParam, body);
      && (d.Stop? ==> (r == Refused(d.status, d.message) && db.permissions == old(db.permissions)
                       && db.invitations == old(db.invitations) && db.nextId == old(db.nextId)))
      && (d.GrantExisting? ==>
            (r == Answered(StatusOK, PermissionGranted) && db.invitations == old(db.invitations)
             && db.permissions == PermissionService.Upsert(old(db.permissions), d.targetId, d.childId,
                                                           d.permissionType, old(db.nextId), now)
             && db.nextId == if PermissionService.PairRows(old(db.permissions), d.targetId, d.childId) == {}
                             then old(db.nextId) + 1 else old(db.nextId)))
      && (d.InviteByEmail? && random.None? ==>
            (r == Refused(StatusInternalServerError, "Failed to create invitation: " + RandomReadFailed)
             && db.permissions == old(db.permissions) && db.invitations == old(db.invitations)
             && db.nextId == old(db.nextId)))
      && (d.InviteByEmail? && random.Some? ==>
            (r == PendingInviteReply(old(db.users), d.inviterId, d.email, mailError)
             && db.permissions == old(db.permissions)
             && db.invitations == InvitationService.UpsertInvitation(old(db.invitations), d.email, d.childId,
                                    d.permissionType, d.inviterId, GenerateToken(random).value, old(db.nextId), now)))
  {
    var d := InviteUserStep(db.children, db.users, db.permissions, ctx, childIdParam, body);
    match d
    case Stop(status, message) =>
      return Refused(status, message);
    case GrantExisting(targetId, childId, t) =>
      PermissionService.CreatePermission(db, targetId, childId, t, now);
      return Answered(StatusOK, PermissionGranted);
    case InviteByEmail(inviterId, childId, email, t) =>
      var invitation := InvitationService.CreatePendingInvitation(db, email, childId, t, inviterId, random, now);
      if invitation.Err? {
        return Refused(StatusInternalServerError, "Failed to create invitation: " + invitation.message);
      }
      r := PendingInviteReply(db.users, inviterId, email, mailError);
  }

  /** `GetChildrenWithBookCounts`: past the count checks, one entry per
      visible child. The service appends to a nil slice, so a caller who
      sees no child is answered JSON `null`. */
  method GetChildrenWithBookCounts(db: Db, ctx: RequestContext, year: string, month: string)
    returns (r: Reply<JsonList<BackendChildService.ChildWithBookCount>>)
    requires db.Valid()
    ensures var q := CountQuery(ctx, year, month);
      && (q.Refused? ==> r == Refused(q.status, q.message))
      && (q.Answered? ==>
            var kids := ChildService.GetChildrenWithPermission(db.children, db.permissions, q.value.0);
            && r.Answered? && r.status == StatusOK
            && (r.value.Null? <==> kids == []) && |Elements(r.value)| == |kids|
            && forall i :: 0 <= i < |kids| ==>
                 Elements(r.value)[i] == BackendChildService.WithBookCount(kids[i], db.books, q.value.1, q.value.2))
  {
    var q := CountQuery(ctx, year, month);
    if q.Refused? {
      return Refused(q.status, q.message);
    }
    var (userId, y, m) := q.value;
    var counts := BackendChildService.GetChildrenWithBookCounts(db.children, db.permissions, db.books, userId, y, m);
    r := Answered(StatusOK, ListOf(counts));
  }

  /** `GetBookCountsForChildren`: the same checks, then the bare counts,
      again `null` when no child is visible. */
  method GetBookCountsForChildren(db: Db, ctx: RequestContext, year: string, month: string)
    returns (r: Reply<JsonList<BackendChildService.BookCount>>)
    requires db.Valid()
    ensures var q := CountQuery(ctx, year, month);
      && (q.Refused? ==> r == Refused(q.status, q.message))
      && (q.Answered? ==>
            var kids := ChildService.GetChildrenWithPermission(db.children, db.permissions, q.value.0);
            && r.Answered? && r.status == StatusOK
            && (r.value.Null? <==> kids == []) && |Elements(r.value)| == |kids|
            && forall i :: 0 <= i < |kids| ==>
                 Elements(r.value)[i] == BackendChildService.BookCount(
                   kids[i].id, BookQueries.GetBookCountByChildAndMonth(db.books, kids[i].id, q.value.1, q.value.2)))
  {
    var q := CountQuery(ctx, year, month);
    if q.Refused? {
      return Refused(q.status, q.message);
    }
    var (userId, y, m) := q.value;
    var counts := BackendChildService.GetBookCountsForUserChildren(db.children, db.permissions, db.books, userId, y, m);
    r := Answered(StatusOK, ListOf(counts));
  }
}

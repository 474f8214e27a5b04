/** The child routes of `backend-go/handlers/child.go`. Reading and editing
    use the permission guard of `Handlers`; deletion is the owner-only guard
    shared with `backend` (`BackendChildHandlers.DeleteChildGuard`); and
    inviting grants access to registered users only. */
module GoChildHandlers {
  import opened Common
  import opened Text
  import opened Records
  import opened Store
  import opened AuthMiddleware
  import opened Handlers
  import ChildService
  import UserService
  import PermissionService
  import BackendChildHandlers

  /** `ChildResponse` of this backend: one `name` field. */
  datatype ChildResponse = ChildResponse(id: nat, name: string, grade: string, ownerId: nat, createdAt: int)

  function ChildResponseOf(c: Child): ChildResponse
  {
    ChildResponse(c.id, c.name, c.grade, c.ownerId, c.createdAt)
  }

  /** `GetChildByID`: VIEW is required, and the answer describes the child
      the path names. */
  function GetChildByID(children: map<nat, Child>, permissions: map<nat, Permission>, ctx: RequestContext,
                        idParam: string): (r: Reply<ChildResponse>)
    requires ChildrenKeyed(children)
    ensures r.Answered? <==> PermissionGuard(children, permissions, ctx, idParam, View).Answered?
    ensures r.Refused? ==> var g := PermissionGuard(children, permissions, ctx, idParam, View);
                           g.Refused? && r.status == g.status && r.message == g.message
    ensures r.Answered? ==> (r.status == StatusOK && r.value.id == ParseUint32(idParam).value
                             && r.value == ChildResponseOf(children[r.value.id]))
  {
    match PermissionGuard(children, permissions, ctx, idParam, View)
    case Refused(status, message) => Refused(status, message)
    case Answered(_, ids) =>
      match ChildService.GetChildByID(children, ids.1)
      case Err(e) => Refused(StatusNotFound, e)
      case Ok(child) => Answered(StatusOK, ChildResponseOf(child))
  }

  /** The body of an update; both fields are `binding:"required"`, so an
      empty one does not bind. */
  datatype UpdateChildBody = UpdateChildBody(name: string, grade: string)

  predicate UpdateChildBodyBinds(body: Option<UpdateChildBody>)
  {
    body.Some? && body.value.name != "" && body.value.grade != ""
  }

  /** `UpdateChild`: EDIT is required and checked before the body is read;
      only then are the name and grade overwritten. Any refusal leaves the
      table as it was. */
  method UpdateChild(db: Db, ctx: RequestContext, idParam: string, body: Option<UpdateChildBody>, now: int)
    returns (r: Reply<ChildResponse>)
    requires db.Valid()
    modifies db`children
    ensures db.Valid()
    ensures var guard := PermissionGuard(old(db.children), db.permissions, ctx, idParam, Edit);
      && (guard.Refused? ==> r == Refused(guard.status, guard.message))
      && (guard.Answered? && !UpdateChildBodyBinds(body) ==> r == Refused(StatusBadRequest, InvalidRequestData))
      && (r.Answered? <==> guard.Answered? && UpdateChildBodyBinds(body))
    ensures r.Refused? ==> db.children == old(db.children)
    ensures r.Answered? ==>
      var id := ParseUint32(idParam).value;
      var updated := old(db.children)[id].(name := body.value.name, grade := body.value.grade, updatedAt := now);
      && db.children == old(db.children)[id := updated]
      && r == Answered(StatusOK, ChildResponseOf(updated))
  {
    var guard := PermissionGuard(db.children, db.permissions, ctx, idParam, Edit);
    if guard.Refused? {
      return Refused(guard.status, guard.message);
    }
    if !UpdateChildBodyBinds(body) {
      return Refused(StatusBadRequest, InvalidRequestData);
    }
    // The guard has found the child, so the service's not-found error
    // cannot arise here.
    var child := ChildService.UpdateChild(db, guard.value.1, body.value.name, body.value.grade, now);
    r := Answered(StatusOK, ChildResponseOf(child.value));
  }

  /** `DeleteChild`: the owner-only guard, then the row goes. */
  method DeleteChild(db: Db, ctx: RequestContext, idParam: string) returns (r: Reply<()>)
    requires db.Valid()
    modifies db`children
    ensures db.Valid()
    ensures var guard := BackendChildHandlers.DeleteChildGuard(old(db.children), ctx, idParam);
      && (guard.Refused? ==> r == Refused(guard.status, guard.message) && db.children == old(db.children))
      && (guard.Answered? ==> r == Answered(StatusNoContent, ()) && db.children == old(db.children) - {guard.value})
  {
    var guard := BackendChildHandlers.DeleteChildGuard(db.children, ctx, idParam);
    if guard.Refused? {
      return Refused(guard.status, guard.message);
    }
    var _ := ChildService.DeleteChild(db, guard.value);
    r := Answered(StatusNoContent, ());
  }

  const InvitationSent: string := "Invitation sent successfully"

  /** The one message that depends on the request. */
  function MustRegisterFirst(email: string): string
  {
    "User with email " + email + " not found. They must register first."
  }

  /** The decisions of this `InviteUser`: the same guards as `backend`,
      then a registered user is granted the level (whatever they held
      before) and an unknown email is refused. The answer is the id of the
      user to grant. */
  function InviteUserTarget(children: map<nat, Child>, users: map<nat, User>, ctx: RequestContext,
                            childIdParam: string, body: Option<BackendChildHandlers.InviteBody>): (r: Reply<nat>)
    requires UniqueEmails(users)
    ensures r.Answered? <==> (BackendChildHandlers.OwnerInvites(children, ctx, childIdParam, body)
                              && EmailTaken(users, BackendChildHandlers.BindInvite(body).value.0))
    ensures r.Answered? ==> (r.status == StatusOK && r.value in users
                             && users[r.value].email == BackendChildHandlers.BindInvite(body).value.0)
    ensures (BackendChildHandlers.OwnerInvites(children, ctx, childIdParam, body)
             && !EmailTaken(users, BackendChildHandlers.BindInvite(body).value.0))
      ==> r == Refused(StatusBadRequest, MustRegisterFirst(body.value.email))
  {
    var (userId, ok) := GetCurrentUserID(ctx);
    if !ok then Refused(StatusUnauthorized, NoCurrentUser)
    else match ParseUint32(childIdParam)
      case None => Refused(StatusBadRequest, InvalidChildId)
      case Some(childId) =>
        match BackendChildHandlers.BindInvite(body)
        case None => Refused(StatusBadRequest, InvalidRequestData)
        case Some(req) =>
          match ChildService.GetChildByID(children, childId)
          case Err(_) => Refused(StatusNotFound, BackendChildHandlers.ChildNotFound)
          case Ok(child) =>
            if child.ownerId != userId then Refused(StatusForbidden, BackendChildHandlers.OnlyOwnerInvites)
            else match UserService.GetUserByEmail(users, req.0)
              case Err(_) => Refused(StatusBadRequest, MustRegisterFirst(req.0))
              case Ok(target) =>
                assert exists k :: k in users && users[k] == target;
                var k :| k in users && users[k] == target;
                Answered(StatusOK, k)
  }

  /** The guards refuse a missing child with 404 and a non-owner with 403,
      before the email is even looked up. */
  lemma InviteGuardsComeFirst(children: map<nat, Child>, users: map<nat, User>, ctx: RequestContext,
                              childIdParam: string, body: Option<BackendChildHandlers.InviteBody>)
    requires UniqueEmails(users)
    requires GetCurrentUserID(ctx).1 && ParseUint32(childIdParam).Some?
    requires BackendChildHandlers.BindInvite(body).Some?
    ensures ParseUint32(childIdParam).value !in children ==>
      InviteUserTarget(children, users, ctx, childIdParam, body)
        == Refused(StatusNotFound, BackendChildHandlers.ChildNotFound)
    ensures (ParseUint32(childIdParam).value in children
             && children[ParseUint32(childIdParam).value].ownerId != GetCurrentUserID(ctx).0) ==>
      InviteUserTarget(children, users, ctx, childIdParam, body)
        == Refused(StatusForbidden, BackendChildHandlers.OnlyOwnerInvites)
  {
  }

  /** `InviteUser`: only a granted invitation writes, and it writes through
      the permission upsert, so inviting again changes the level instead of
      adding a row. */
  method InviteUser(db: Db, ctx: RequestContext, childIdParam: string, body: Option<BackendChildHandlers.InviteBody>,
                    now: int) returns (r: Reply<string>)
    requires db.Valid()
    modifies db`permissions, db`nextId
    ensures db.Valid()
    ensures var target := InviteUserTarget(db.children, db.users, ctx, childIdParam, body);
      && (target.Refused? ==> (r == Refused(target.status, target.message)
                               && db.permissions == old(db.permissions) && db.nextId == old(db.nextId)))
      && (target.Answered? ==>
            var childId := ParseUint32(childIdParam).value;
            var t := BackendChildHandlers.BindInvite(body).value.1;
            && r == Answered(StatusOK, InvitationSent)
            && db.permissions == PermissionService.Upsert(old(db.permissions), target.value, childId, t,
                                                          old(db.nextId), now)
            && db.nextId == if PermissionService.PairRows(old(db.permissions), target.value, childId) == {}
                            then old(db.nextId) + 1 else old(db.nextId))
  {
    var target := InviteUserTarget(db.children, db.users, ctx, childIdParam, body);
    if target.Refused? {
      return Refused(target.status, target.message);
    }
    var childId := ParseUint32(childIdParam).value;
    var t := BackendChildHandlers.BindInvite(body).value.1;
    PermissionService.CreatePermission(db, target.value, childId, t, now);
    r := Answered(StatusOK, InvitationSent);
  }
}

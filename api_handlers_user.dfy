/** The user routes of `api/handlers/user.go`. Reading and updating a user
    record are behind a self-or-admin gate that looks only at a caller who
    is present: with no caller in the request it denies nothing. The user
    services they call are those of `backend-go/services/user.go`
    (`UserService`). */
module ApiUserHandlers {
  import opened Common
  import opened Text
  import opened Records
  import opened Store
  import opened AuthMiddleware
  import opened Handlers
  import UserService

  const InvalidUserId: string := "Invalid user ID"

  /** The gate denies a present caller who is not an admin and asks about
      another user. */
  predicate GateDenies(ctx: RequestContext, id: nat)
  {
    GetCurrentUser(ctx).Some? && !GetCurrentUser(ctx).value.isAdmin && GetCurrentUser(ctx).value.id != id
  }

  /** The public description of each user, in order. */
  function UserResponsesOf(us: seq<User>): (r: seq<UserResponse>)
    ensures |r| == |us|
  {
    seq(|us|, i requires 0 <= i < |us| => UserResponseOf(us[i]))
  }

  /** `GetAllUsers`: every user in key order, described without any
      credential, grown by `append` from a nil slice. */
  method GetAllUsers(users: map<nat, User>) returns (r: Reply<JsonList<UserResponse>>)
    requires UsersKeyed(users)
    ensures r.Answered? && r.status == StatusOK
    ensures r.value == ListOf(UserResponsesOf(UserService.GetAllUsers(users)))
    ensures |Elements(r.value)| == |users|
    ensures forall e :: e in Elements(r.value) <==> exists k :: k in users && e == UserResponseOf(users[k])
  {
    var all := UserService.GetAllUsers(users);
    var list := AppendUserResponses(all);
    ListedUsers(users, all);
    r := Answered(StatusOK, list);
  }

  /** The append loop of `GetAllUsers`. */
  method AppendUserResponses(all: seq<User>) returns (list: JsonList<UserResponse>)
    ensures list == ListOf(UserResponsesOf(all))
  {
    list := Null;
    for i := 0 to |all|
      invariant (list.Null? <==> i == 0) && |Elements(list)| == i
      invariant forall j :: 0 <= j < i ==> Elements(list)[j] == UserResponseOf(all[j])
    {
      list := Items(Elements(list) + [UserResponseOf(all[i])]);
    }
    assert Elements(list) == UserResponsesOf(all);
  }

  /** The descriptions of every user are exactly those of the table's rows. */
  lemma ListedUsers(users: map<nat, User>, all: seq<User>)
    requires forall u :: u in all <==> u in users.Values
    ensures forall e :: e in UserResponsesOf(all) <==> exists k :: k in users && e == UserResponseOf(users[k])
  {
    forall e ensures e in UserResponsesOf(all) <==> exists k :: k in users && e == UserResponseOf(users[k]) {
      if e in UserResponsesOf(all) {
        var i :| 0 <= i < |all| && UserResponsesOf(all)[i] == e;
        assert all[i] in users.Values;
      }
      if exists k :: k in users && e == UserResponseOf(users[k]) {
        var k :| k in users && e == UserResponseOf(users[k]);
        assert users[k] in users.Values;
        var i :| 0 <= i < |all| && all[i] == users[k];
        assert UserResponsesOf(all)[i] == e;
      }
    }
  }

  /** `GetUserByID`: the id is parsed before anything else, then the gate,
      then the lookup (404 with the service's text). */
  function GetUserByID(users: map<nat, User>, ctx: RequestContext, idParam: string): (r: Reply<UserResponse>)
    ensures ParseUint32(idParam).None? ==> r == Refused(StatusBadRequest, InvalidUserId)
    ensures ParseUint32(idParam).Some? && GateDenies(ctx, ParseUint32(idParam).value) ==>
      r == Refused(StatusForbidden, AccessDenied)
    ensures r.Answered? <==> (ParseUint32(idParam).Some? && !GateDenies(ctx, ParseUint32(idParam).value)
                              && ParseUint32(idParam).value in users)
    ensures r.Answered? ==> r == Answered(StatusOK, UserResponseOf(users[ParseUint32(idParam).value]))
    ensures (ParseUint32(idParam).Some? && !GateDenies(ctx, ParseUint32(idParam).value)
             && ParseUint32(idParam).value !in users) ==> r == Refused(StatusNotFound, UserService.UserNotFound)
  {
    match ParseUint32(idParam)
    case None => Refused(StatusBadRequest, InvalidUserId)
    case Some(id) =>
      if GateDenies(ctx, id) then Refused(StatusForbidden, AccessDenied)
      else match UserService.GetUserByID(users, id)
        case Err(e) => Refused(StatusNotFound, e)
        case Ok(user) => Answered(StatusOK, UserResponseOf(user))
  }

  /** With no caller in the request the gate lets anyone read any user
      record; a non-admin caller reads only their own. */
  lemma GateOnlyStopsPresentCallers(users: map<nat, User>, idParam: string, caller: User)
    requires ParseUint32(idParam).Some? && ParseUint32(idParam).value in users
    requires !caller.isAdmin
    ensures GetUserByID(users, RequestContext(None, None), idParam).Answered?
    ensures GetUserByID(users, RequestContext(Some(caller), Some(caller.id)), idParam).Answered?
            <==> caller.id == ParseUint32(idParam).value
  {
  }

  /** A caller is present and is not an admin. */
  predicate NonAdminCaller(ctx: RequestContext)
  {
    GetCurrentUser(ctx).Some? && !GetCurrentUser(ctx).value.isAdmin
  }

  /** The request an update hands to the service: for a non-admin caller
      the stored admin flag replaces the requested one; an admin, or a
      request with no caller, writes the flag it asks for. */
  function RequestToWrite(ctx: RequestContext, users: map<nat, User>, id: nat, req: UpdateUserRequest)
    : (w: UpdateUserRequest)
    ensures w.email == req.email && w.firstName == req.firstName && w.lastName == req.lastName
    ensures w.isAdmin == if NonAdminCaller(ctx) && id in users then users[id].isAdmin else req.isAdmin
  {
    if NonAdminCaller(ctx) && id in users then req.(isAdmin := users[id].isAdmin) else req
  }

  /** The id parses, the gate lets the caller through and the body binds. */
  predicate UpdateReachesLookup(ctx: RequestContext, idParam: string, body: Option<UpdateUserRequest>)
  {
    && ParseUint32(idParam).Some? && !GateDenies(ctx, ParseUint32(idParam).value)
    && body.Some? && UpdateUserRequestBinds(body.value)
  }

  /** `UpdateUser`: id, gate, body; then, for a caller who is not an admin,
      the stored user is read first (404 when it is missing) and its admin
      flag replaces the requested one, so such a caller can never change
      it. The service's refusal is a 400 with its message. Only the email,
      the names and the flag change. */
  method UpdateUser(db: Db, ctx: RequestContext, idParam: string, body: Option<UpdateUserRequest>, now: int)
    returns (r: Reply<UserResponse>)
    requires db.Valid()
    modifies db`users
    ensures db.Valid()
    ensures r.Refused? ==> db.users == old(db.users)
    ensures ParseUint32(idParam).None? ==> r == Refused(StatusBadRequest, InvalidUserId)
    ensures ParseUint32(idParam).Some? && GateDenies(ctx, ParseUint32(idParam).value) ==>
      r == Refused(StatusForbidden, AccessDenied)
    ensures ParseUint32(idParam).Some? && !GateDenies(ctx, ParseUint32(idParam).value)
            && !(body.Some? && UpdateUserRequestBinds(body.value)) ==>
      r == Refused(StatusBadRequest, InvalidRequestData)
    ensures UpdateReachesLookup(ctx, idParam, body) && NonAdminCaller(ctx)
            && ParseUint32(idParam).value !in old(db.users) ==>
      r == Refused(StatusNotFound, UserService.UserNotFound)
    ensures UpdateReachesLookup(ctx, idParam, body)
            && !(NonAdminCaller(ctx) && ParseUint32(idParam).value !in old(db.users)) ==>
      var id := ParseUint32(idParam).value;
      var update := UserService.UpdatedUser(old(db.users), id, RequestToWrite(ctx, old(db.users), id, body.value), now);
      && (r.Answered? <==> update.Ok?)
      && (update.Err? ==> r == Refused(StatusBadRequest, update.message))
    ensures r.Answered? ==>
      var id := ParseUint32(idParam).value;
      && UpdateReachesLookup(ctx, idParam, body) && id in old(db.users)
      && var update := UserService.UpdatedUser(old(db.users), id, RequestToWrite(ctx, old(db.users), id, body.value), now);
      && update.Ok?
      && db.users == old(db.users)[id := update.value]
      && r == Answered(StatusOK, UserResponseOf(db.users[id]))
    ensures r.Answered? && NonAdminCaller(ctx) ==>
      db.users[ParseUint32(idParam).value].isAdmin == old(db.users)[ParseUint32(idParam).value].isAdmin
  {
    var id := ParseUint32(idParam);
    if id.None? {
      return Refused(StatusBadRequest, InvalidUserId);
    }
    if GateDenies(ctx, id.value) {
      return Refused(StatusForbidden, AccessDenied);
    }
    if body.None? || !UpdateUserRequestBinds(body.value) {
      return Refused(StatusBadRequest, InvalidRequestData);
    }
    var req := body.value;
    var caller := GetCurrentUser(ctx);
    if caller.Some? && !caller.value.isAdmin {
      var existing := UserService.GetUserByID(db.users, id.value);
      if existing.Err? {
        return Refused(StatusNotFound, existing.message);
      }
      req := req.(isAdmin := existing.value.isAdmin);
    }
    var user := UserService.UpdateUser(db, id.value, req, now);
    if user.Err? {
      return Refused(StatusBadRequest, user.message);
    }
    r := Answered(StatusOK, UserResponseOf(user.value));
  }

  /** `DeleteUser`: no gate of its own; a missing user is a 404. */
  method DeleteUser(db: Db, idParam: string) returns (r: Reply<()>)
    requires db.Valid()
    modifies db`users
    ensures db.Valid()
    ensures ParseUint32(idParam).None? ==> r == Refused(StatusBadRequest, InvalidUserId) && db.users == old(db.users)
    ensures ParseUint32(idParam).Some? ==>
      var id := ParseUint32(idParam).value;
      && db.users == old(db.users) - {id}
      && r == if id in old(db.users) then Answered(StatusNoContent, ())
              else Refused(StatusNotFound, UserService.UserNotFound)
  {
    var id := ParseUint32(idParam);
    if id.None? {
      return Refused(StatusBadRequest, InvalidUserId);
    }
    var deleted := UserService.DeleteUser(db, id.value);
    if deleted.Err? {
      return Refused(StatusNotFound, deleted.message);
    }
    r := Answered(StatusNoContent, ());
  }
}

/** The account routes of `backend-go/handlers/auth.go`: registration (plain
    and by invitation), invitation details, login, the password-reset pair,
    the bulk invitation of one email to several children, and the state
    check at the start of the Google callback. Sending an email is an input
    saying whether the send failed. */
module GoAuthHandlers {
  import opened Common
  import opened Records
  import opened Store
  import opened Tokens
  import opened AuthMiddleware
  import opened Handlers
  import UserService
  import InvitationService
  import AuthService
  import PermissionService

  /** `RegisterUser`: a body that binds, then `CreateUser`, whose error is
      answered with 400 and its own text (a taken email among them). A
      failed verification email does not fail the registration: the answer
      is still 201 and only the warning header is set. */
  method RegisterUser(db: Db, body: Option<CreateUserRequest>, salt: seq<Byte>, random: RandomRead,
                      mailFailed: bool, now: int) returns (r: Reply<UserResponse>, emailWarning: bool)
    requires db.Valid()
    modifies db`users, db`nextId
    ensures db.Valid()
    ensures !(body.Some? && CreateUserRequestBinds(body.value)) ==>
      r == Refused(StatusBadRequest, InvalidRequestData) && !emailWarning
      && db.users == old(db.users) && db.nextId == old(db.nextId)
    ensures body.Some? && CreateUserRequestBinds(body.value) ==>
      var created := UserService.NewUser(old(db.users), body.value, salt, random, old(db.nextId), now);
      && (created.Err? ==> r == Refused(StatusBadRequest, created.message) && !emailWarning
                           && db.users == old(db.users) && db.nextId == old(db.nextId))
      && (created.Ok? ==> r == Answered(StatusCreated, UserResponseOf(created.value)) && emailWarning == mailFailed
                          && db.users == old(db.users)[created.value.id := created.value])
    ensures EmailTaken(old(db.users), if body.Some? then body.value.email else "") ==> r.Refused?
  {
    emailWarning := false;
    if body.None? || !CreateUserRequestBinds(body.value) {
      r := Refused(StatusBadRequest, InvalidRequestData);
      return;
    }
    var user := UserService.CreateUser(db, body.value, salt, random, now);
    if user.Err? {
      r := Refused(StatusBadRequest, user.message);
      return;
    }
    if mailFailed {
      emailWarning := true;
    }
    r := Answered(StatusCreated, UserResponseOf(user.value));
  }

  /** `RegisterUserWithInvitation`: the bulk redemption, with its error
      answered as 400 and the same email warning as a plain registration. */
  method RegisterUserWithInvitation(db: Db, body: Option<InvitationService.CreateUserWithInvitationRequest>,
                                    salt: seq<Byte>, random: RandomRead, mailFailed: bool, now: int)
    returns (r: Reply<UserResponse>, emailWarning: bool)
    requires db.Valid()
    modifies db`users, db`permissions, db`invitations, db`nextId
    ensures db.Valid()
    ensures body.None? ==> r == Refused(StatusBadRequest, InvalidRequestData)
    ensures r.Refused? ==>
      (!emailWarning && db.users == old(db.users) && db.permissions == old(db.permissions)
       && db.invitations == old(db.invitations) && db.nextId == old(db.nextId))
    ensures body.Some? ==>
      var check := InvitationService.BulkRedemptionCheck(old(db.invitations), old(db.users), body.value, now);
      && (check.Err? ==> r == Refused(StatusBadRequest, check.message))
      && (check.Ok? && random.Some? ==> r.Answered?)
      && (check.Ok? && random.None? ==> r == Refused(StatusBadRequest, RandomReadFailed))
      && (r.Answered? ==>
            && (db.permissions, db.nextId)
               == PermissionService.GrantAll(old(db.permissions), r.value.id, InvitationService.GrantsOf(check.value),
                                             old(db.nextId) + 1, now)
            && r.value == UserResponseOf(UserService.NewUser(old(db.users), InvitationService.InvitedUserRequest(body.value),
                                                             salt, random, old(db.nextId), now).value))
      && (r.Answered? ==> r.status == StatusCreated && emailWarning == mailFailed && r.value.id in db.users
                          && r.value == UserResponseOf(db.users[r.value.id]) && r.value.email == body.value.email
                          && db.invitations == InvitationService.WithoutToken(old(db.invitations),
                                                                               body.value.invitationToken))
  {
    emailWarning := false;
    if body.None? {
      r := Refused(StatusBadRequest, InvalidRequestData);
      return;
    }
    var user := InvitationService.ProcessBulkInvitationRegistration(db, body.value, salt, random, now);
    if user.Err? {
      r := Refused(StatusBadRequest, user.message);
      return;
    }
    if mailFailed {
      emailWarning := true;
    }
    r := Answered(StatusCreated, UserResponseOf(user.value));
  }

  const TokenRequired: string := "Invitation token is required"

  /** What the invitation page is told: who invites whom to which child. */
  datatype InvitationDetails = InvitationDetails(email: string, childName: string, inviterName: string,
                                                 permissionType: PermType)

  /** A first and last name joined by a space; a preloaded row that does
      not exist has empty names, so its name is a single space. */
  function ChildName(children: map<nat, Child>, id: nat): string
  {
    if id in children then children[id].firstName + " " + children[id].lastName else " "
  }

  function UserName(users: map<nat, User>, id: nat): string
  {
    if id in users then users[id].firstName + " " + users[id].lastName else " "
  }

  /** `GetInvitationDetails`: an empty token is refused before any lookup;
      otherwise a live invitation with that token is described, and a
      missing or expired one is a 400 with the lookup's error. */
  function GetInvitationDetails(children: map<nat, Child>, users: map<nat, User>,
                                invitations: map<nat, Invitation>, token: string, now: int)
    : (r: Reply<InvitationDetails>)
    requires InvitationsKeyed(invitations)
    ensures token == "" ==> r == Refused(StatusBadRequest, TokenRequired)
    ensures token != "" ==> (r.Answered? <==> InvitationService.LiveWithToken(invitations, token, now) != {})
    ensures token != "" && r.Refused? ==> r == Refused(StatusBadRequest, InvitationService.InvitationNotFound)
    ensures r.Answered? ==>
      && r.status == StatusOK
      && exists k :: k in InvitationService.LiveWithToken(invitations, token, now)
                     && (forall j :: j in InvitationService.LiveWithToken(invitations, token, now) ==> k <= j)
                     && r.value == InvitationDetails(invitations[k].email, ChildName(children, invitations[k].childId),
                                                     UserName(users, invitations[k].invitedById),
                                                     invitations[k].permissionType)
  {
    if token == "" then Refused(StatusBadRequest, TokenRequired)
    else match InvitationService.GetPendingInvitationByToken(invitations, token, now)
      case Err(e) => Refused(StatusBadRequest, e)
      case Ok(inv) =>
        assert inv.id in InvitationService.LiveWithToken(invitations, token, now);
        Answered(StatusOK, InvitationDetails(inv.email, ChildName(children, inv.childId),
                                             UserName(users, inv.invitedById), inv.permissionType))
  }

  const InvalidCredentials: string := "Invalid credentials"

  /** `LoginUser`: every failure of the login service, whatever its cause,
      becomes the same 401. */
  function LoginUser(users: map<nat, User>, body: Option<LoginRequest>, secret: string, now: int)
    : (r: Reply<AuthService.LoginResponse>)
    requires UniqueEmails(users)
    ensures !(body.Some? && LoginRequestBinds(body.value)) ==> r == Refused(StatusBadRequest, InvalidRequestData)
    ensures body.Some? && LoginRequestBinds(body.value) ==>
      && (r.Answered? <==> AuthService.AuthenticateUser(users, body.value.email, body.value.password).Ok?)
      && (r.Refused? ==> r == Refused(StatusUnauthorized, InvalidCredentials))
      && (r.Answered? ==> r == Answered(StatusOK, AuthService.Login(users, body.value, secret, now).value))
  {
    if body.None? || !LoginRequestBinds(body.value) then Refused(StatusBadRequest, InvalidRequestData)
    else match AuthService.Login(users, body.value, secret, now)
      case Err(_) => Refused(StatusUnauthorized, InvalidCredentials)
      case Ok(resp) => Answered(StatusOK, resp)
  }

  /** An unknown email and a wrong password for a known one get the very
      same answer. */
  lemma LoginFailuresLookAlike(users: map<nat, User>, unknown: string, known: string, guess: string,
                               password: string, secret: string, now: int)
    requires UniqueEmails(users)
    requires unknown != "" && known != "" && password != "" && guess != ""
    requires !EmailTaken(users, unknown)
    requires exists k :: k in users && users[k].email == known && !Credentials.VerifyPassword(guess, users[k].passwordHash)
    ensures LoginUser(users, Some(LoginRequest(unknown, password)), secret, now)
            == LoginUser(users, Some(LoginRequest(known, guess)), secret, now)
            == Refused(StatusUnauthorized, InvalidCredentials)
  {
    AuthService.UnknownEmailLooksLikeWrongPassword(users, unknown, known, guess, password);
  }

  const ResetMailMaybeSent: string := "If an account with that email exists, a password reset email has been sent"
  const ResetMailFailed: string := "Failed to send password reset email"

  /** `ForgotPassword`: the same 200 for an unknown email as for a sent
      reset email; only a failed send to an existing account is a 500. The
      reset token is stored before the email is sent, so it stays even
      when the send fails. */
  method ForgotPassword(db: Db, body: Option<string>, random: RandomRead, mailFailed: bool, now: int)
    returns (r: Reply<string>)
    requires db.Valid()
    modifies db`users
    ensures db.Valid()
    ensures body.None? ==> r == Refused(StatusBadRequest, InvalidRequestData) && db.users == old(db.users)
    ensures body.Some? ==>
      var reset := EmailTaken(old(db.users), body.value) && random.Some?;
      && (!reset ==> r == Answered(StatusOK, ResetMailMaybeSent) && db.users == old(db.users))
      && (reset ==>
            var u := UserByEmail(old(db.users), body.value).value;
            && db.users == old(db.users)[u.id := u.(resetToken := GenerateToken(random).value,
                                                    resetExpiresAt := Some(now + HourMs), updatedAt := now)]
            && r == if mailFailed then Refused(StatusInternalServerError, ResetMailFailed)
                    else Answered(StatusOK, ResetMailMaybeSent))
  {
    if body.None? {
      return Refused(StatusBadRequest, InvalidRequestData);
    }
    var user := UserService.RequestPasswordReset(db, body.value, random, now);
    if user.Err? {
      return Answered(StatusOK, ResetMailMaybeSent);
    }
    if mailFailed {
      return Refused(StatusInternalServerError, ResetMailFailed);
    }
    r := Answered(StatusOK, ResetMailMaybeSent);
  }

  datatype ResetPasswordBody = ResetPasswordBody(token: string, password: string)

  const PasswordResetDone: string := "Password reset successfully"

  datatype ResetAnswer = ResetAnswer(message: string, user: UserResponse)

  /** `ResetPassword`: the service's error is a 400 with its text; on
      success the user is described without any credential. */
  method ResetPassword(db: Db, body: Option<ResetPasswordBody>, salt: seq<Byte>, now: int)
    returns (r: Reply<ResetAnswer>)
    requires db.Valid()
    modifies db`users
    ensures db.Valid()
    ensures body.None? ==> r == Refused(StatusBadRequest, InvalidRequestData) && db.users == old(db.users)
    ensures body.Some? ==>
      var reset := UserService.ResetUser(old(db.users), body.value.token, body.value.password, salt, now);
      && (reset.Err? ==> r == Refused(StatusBadRequest, reset.message) && db.users == old(db.users))
      && (reset.Ok? ==> r == Answered(StatusOK, ResetAnswer(PasswordResetDone, UserResponseOf(reset.value)))
                        && db.users == old(db.users)[reset.value.id := reset.value])
  {
    if body.None? {
      return Refused(StatusBadRequest, InvalidRequestData);
    }
    var user := UserService.ResetPassword(db, body.value.token, body.value.password, salt, now);
    if user.Err? {
      return Refused(StatusBadRequest, user.message);
    }
    r := Answered(StatusOK, ResetAnswer(PasswordResetDone, UserResponseOf(user.value)));
  }

  /** The body of a bulk invitation: one email and the children to share
      with it, each with its level. */
  datatype BulkInviteBody = BulkInviteBody(email: string, children: seq<ChildGrant>)

  const BulkChildNotFound: string := "Child not found"
  const OnlyOwnerShares: string := "Only the owner can invite users to access their children"
  const AccessGranted: string := "Access granted successfully"
  const InvitationSent: string := "Invitation sent successfully"

  predicate OwnedBy(children: map<nat, Child>, childId: nat, userId: nat)
  {
    childId in children && children[childId].ownerId == userId
  }

  /** The ownership check of `BulkInviteUser`, child by child in the order
      listed: the first child that is missing is a 404 and the first one
      owned by someone else a 403. It passes exactly when the caller owns
      every listed child. */
  function OwnershipCheck(children: map<nat, Child>, userId: nat, grants: seq<ChildGrant>): (r: Reply<()>)
    ensures r.Answered? <==> forall i :: 0 <= i < |grants| ==> OwnedBy(children, grants[i].childId, userId)
    ensures r.Answered? ==> r == Answered(StatusOK, ())
    decreases |grants|
  {
    if grants == [] then Answered(StatusOK, ())
    else if grants[0].childId !in children then Refused(StatusNotFound, BulkChildNotFound)
    else if children[grants[0].childId].ownerId != userId then Refused(StatusForbidden, OnlyOwnerShares)
    else
      var rest := OwnershipCheck(children, userId, grants[1..]);
      assert forall i :: 1 <= i < |grants| ==> grants[i] == grants[1..][i - 1];
      rest
  }

  /** The refusal comes from the first child that is not the caller's. */
  lemma {:induction false} FirstUnownedChildDecides(children: map<nat, Child>, userId: nat, grants: seq<ChildGrant>,
                                                    i: nat)
    requires i < |grants| && forall j :: 0 <= j < i ==> OwnedBy(children, grants[j].childId, userId)
    requires !OwnedBy(children, grants[i].childId, userId)
    ensures OwnershipCheck(children, userId, grants)
      == if grants[i].childId !in children then Refused(StatusNotFound, BulkChildNotFound)
         else Refused(StatusForbidden, OnlyOwnerShares)
    decreases i
  {
    if i > 0 {
      assert OwnedBy(children, grants[0].childId, userId);
      assert grants[1..][i - 1] == grants[i];
      assert forall j :: 0 <= j < i - 1 ==> grants[1..][j] == grants[j + 1];
      FirstUnownedChildDecides(children, userId, grants[1..], i - 1);
    }
  }

  /** The ownership loop. */
  method CheckOwnership(children: map<nat, Child>, userId: nat, grants: seq<ChildGrant>) returns (r: Reply<()>)
    ensures r == OwnershipCheck(children, userId, grants)
  {
    for i := 0 to |grants|
      invariant OwnershipCheck(children, userId, grants) == OwnershipCheck(children, userId, grants[i..])
    {
      assert grants[i..][1..] == grants[i + 1..];
      if grants[i].childId !in children {
        return Refused(StatusNotFound, BulkChildNotFound);
      }
      if children[grants[i].childId].ownerId != userId {
        return Refused(StatusForbidden, OnlyOwnerShares);
      }
    }
    assert grants[|grants|..] == [];
    r := Answered(StatusOK, ());
  }

  /** The invitation branch of `BulkInviteUser`: one token for all the
      children, then the inviter's lookup and the email. The invitations
      are written before the email is sent, so a failed send leaves them in
      place behind its 500. */
  method InviteUnregistered(db: Db, userId: nat, req: BulkInviteBody, random: RandomRead,
                            mailError: Option<string>, now: int) returns (r: Reply<string>)
    requires db.Valid()
    modifies db`invitations, db`nextId
    ensures db.Valid()
    ensures random.None? ==>
      r == Refused(StatusInternalServerError, "Failed to create invitations: " + RandomReadFailed)
      && db.invitations == old(db.invitations) && db.nextId == old(db.nextId)
    ensures random.Some? ==>
      && db.invitations == InvitationService.WithBulkRows(InvitationService.WithoutEmail(old(db.invitations), req.email),
                             req.children, req.email, userId, GenerateToken(random).value,
                             GetInvitationExpiration(now), old(db.nextId))
      && db.nextId == old(db.nextId) + |req.children|
      && r == if userId !in db.users then Refused(StatusInternalServerError,
                                                  "Failed to get current user: " + UserService.UserNotFound)
              else if mailError.Some? then Refused(StatusInternalServerError,
                                                   "Failed to send invitation email: " + mailError.value)
              else Answered(StatusOK, InvitationSent)
  {
    var token := InvitationService.CreateBulkPendingInvitation(db, req.email, req.children, userId, random, now);
    if token.Err? {
      return Refused(StatusInternalServerError, "Failed to create invitations: " + token.message);
    }
    var inviter := UserService.GetUserByID(db.users, userId);
    if inviter.Err? {
      return Refused(StatusInternalServerError, "Failed to get current user: " + inviter.message);
    }
    if mailError.Some? {
      return Refused(StatusInternalServerError, "Failed to send invitation email: " + mailError.value);
    }
    r := Answered(StatusOK, InvitationSent);
  }

  /** `BulkInviteUser`: a caller, a body, and ownership of every listed
      child before anything is written. A registered email is granted each
      child through the permission upsert; an unknown one is sent a single
      invitation token covering all of them. */
  method BulkInviteUser(db: Db, ctx: RequestContext, body: Option<BulkInviteBody>, random: RandomRead,
                        mailError: Option<string>, now: int) returns (r: Reply<string>)
    requires db.Valid()
    modifies db`permissions, db`invitations, db`nextId
    ensures db.Valid()
    ensures !GetCurrentUserID(ctx).1 ==> r == Refused(StatusUnauthorized, NoCurrentUser)
    ensures GetCurrentUserID(ctx).1 && body.None? ==> r == Refused(StatusBadRequest, InvalidRequestData)
    ensures !(GetCurrentUserID(ctx).1 && body.Some?
              && OwnershipCheck(db.children, GetCurrentUserID(ctx).0, body.value.children).Answered?) ==>
      db.permissions == old(db.permissions) && db.invitations == old(db.invitations) && db.nextId == old(db.nextId)
    ensures GetCurrentUserID(ctx).1 && body.Some? ==>
      var check := OwnershipCheck(db.children, GetCurrentUserID(ctx).0, body.value.children);
      && (check.Refused? ==> r == Refused(check.status, check.message))
      && (check.Answered? && EmailTaken(db.users, body.value.email) ==>
            var target := UserByEmail(db.users, body.value.email).value;
            && r == Answered(StatusOK, AccessGranted)
            && (db.permissions, db.nextId) == PermissionService.GrantAll(old(db.permissions), target.id,
                                                                         body.value.children, old(db.nextId), now)
            && db.invitations == old(db.invitations))
      && (check.Answered? && !EmailTaken(db.users, body.value.email) ==>
            db.permissions == old(db.permissions) && (r.Answered? ==> r == Answered(StatusOK, InvitationSent)))
  {
    var (userId, ok) := GetCurrentUserID(ctx);
    if !ok {
      return Refused(StatusUnauthorized, NoCurrentUser);
    }
    if body.None? {
      return Refused(StatusBadRequest, InvalidRequestData);
    }
    var req := body.value;
    var check := CheckOwnership(db.children, userId, req.children);
    if check.Refused? {
      return Refused(check.status, check.message);
    }
    var target := UserService.GetUserByEmail(db.users, req.email);
    if target.Err? {
      r := InviteUnregistered(db, userId, req, random, mailError, now);
      return;
    }
    assert target.value == UserByEmail(db.users, req.email).value;
    PermissionService.GrantEach(db, target.value.id, req.children, now);
    r := Answered(StatusOK, AccessGranted);
  }

  const InvalidState: string := "Invalid state parameter"
  const CodeMissing: string := "Authorization code not provided"

  /** The checks at the start of `GoogleCallback`: the `state` query value
      must equal the `oauth_state` cookie, which must be present, and a
      code must be given. The answer is the code to exchange. */
  function GoogleCallbackGuard(state: string, cookie: Option<string>, code: string): (r: Reply<string>)
    ensures r.Answered? <==> cookie == Some(state) && code != ""
    ensures cookie != Some(state) ==> r == Refused(StatusBadRequest, InvalidState)
    ensures cookie == Some(state) && code == "" ==> r == Refused(StatusBadRequest, CodeMissing)
    ensures r.Answered? ==> r == Answered(StatusOK, code)
  {
    if cookie.None? || state != cookie.value then Refused(StatusBadRequest, InvalidState)
    else if code == "" then Refused(StatusBadRequest, CodeMissing)
    else Answered(StatusOK, code)
  }
}

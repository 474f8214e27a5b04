/** Pending invitations of `api/services/invitation.go` (whose first half
    `backend-go/services/invitation.go` repeats): an invitation lets an
    email address that has no account yet redeem a grant on a child by
    registering with the invitation's token within 7 days. */
module InvitationService {
  import opened Common
  import opened Records
  import opened Store
  import opened Collections
  import opened Tokens
  import UserService
  import PermissionService

  const InvitationNotFound: string := "invitation not found or expired"
  const EmailMismatch: string := "email does not match invitation"

  /** Registration through an invitation link. */
  datatype CreateUserWithInvitationRequest = CreateUserWithInvitationRequest(
    email: string,
    password: string,
    firstName: string,
    lastName: string,
    invitationToken: string)

  /** The rows for one (email, child) pair. */
  function PairInvitations(invitations: map<nat, Invitation>, email: string, childId: nat): set<nat>
  {
    set k | k in invitations && invitations[k].email == email && invitations[k].childId == childId
  }

  predicate OneInvitationPerPair(invitations: map<nat, Invitation>)
  {
    forall i, j ::
      (i in invitations && j in invitations && invitations[i].email == invitations[j].email
       && invitations[i].childId == invitations[j].childId) ==> i == j
  }

  /** The table after inviting: the pair's first row takes the new type,
      inviter, token and a fresh 7-day expiry, or a new row is added under
      `freshId`. */
  function UpsertInvitation(invitations: map<nat, Invitation>, email: string, childId: nat, t: PermType,
                            invitedById: nat, token: string, freshId: nat, now: int): map<nat, Invitation>
  {
    var pair := PairInvitations(invitations, email, childId);
    var expiresAt := GetInvitationExpiration(now);
    if pair != {} then
      var k := Least(pair);
      invitations[k := invitations[k].(permissionType := t, invitedById := invitedById, token := token,
                                       expiresAt := expiresAt)]
    else
      invitations[freshId := Invitation(freshId, email, childId, t, invitedById, token, expiresAt)]
  }

  /** Re-inviting never adds a second row for the pair, and the pair's one
      row carries the latest type, inviter and token, valid for 7 days. */
  lemma UpsertInvitationKeepsOnePerPair(invitations: map<nat, Invitation>, email: string, childId: nat,
                                        t: PermType, invitedById: nat, token: string, freshId: nat, now: int)
    requires freshId !in invitations && OneInvitationPerPair(invitations)
    ensures var r := UpsertInvitation(invitations, email, childId, t, invitedById, token, freshId, now);
      && OneInvitationPerPair(r)
      && exists k :: PairInvitations(r, email, childId) == {k}
                     && r[k].permissionType == t && r[k].invitedById == invitedById && r[k].token == token
                     && r[k].expiresAt == now + 7 * DayMs
  {
    var r := UpsertInvitation(invitations, email, childId, t, invitedById, token, freshId, now);
    var pair := PairInvitations(invitations, email, childId);
    if pair != {} {
      var k := Least(pair);
      assert PairInvitations(r, email, childId) == {k} by {
        forall j | j in PairInvitations(r, email, childId) ensures j == k {
          assert j in pair;
        }
      }
    } else {
      forall k | k in invitations ensures !(invitations[k].email == email && invitations[k].childId == childId) {
        assert k !in pair;
      }
      assert PairInvitations(r, email, childId) == {freshId};
    }
  }

  /** `CreatePendingInvitation`. The token is drawn before the row is
      written, so a failed read changes nothing. */
  method CreatePendingInvitation(db: Db, email: string, childId: nat, t: PermType, invitedById: nat,
                                 random: RandomRead, now: int) returns (r: Result<Invitation>)
    requires db.Valid()
    modifies db`invitations, db`nextId
    ensures db.Valid()
    ensures random.None? ==> r == Err(RandomReadFailed) && db.invitations == old(db.invitations)
                             && db.nextId == old(db.nextId)
    ensures random.Some? ==> (r.Ok? && db.invitations == UpsertInvitation(old(db.invitations), email, childId, t,
                                invitedById, GenerateToken(random).value, old(db.nextId), now)
                              && r.value.id in db.invitations && db.invitations[r.value.id] == r.value
                              && r.value.email == email && r.value.childId == childId
                              && db.nextId == if PairInvitations(old(db.invitations), email, childId) == {}
                                              then old(db.nextId) + 1 else old(db.nextId))
  {
    var pair := PairInvitations(db.invitations, email, childId);
    if pair != {} {
      var token := GenerateToken(random);
      if token.Err? {
        return Err(token.message);
      }
      var existing := db.invitations[Least(pair)];
      existing := existing.(permissionType := t, invitedById := invitedById, token := token.value,
                            expiresAt := GetInvitationExpiration(now));
      db.invitations := db.invitations[existing.id := existing];
      return Ok(existing);
    }
    var token := GenerateToken(random);
    if token.Err? {
      return Err(token.message);
    }
    var id := db.NewId();
    var invitation := Invitation(id, email, childId, t, invitedById, token.value, GetInvitationExpiration(now));
    db.invitations := db.invitations[id := invitation];
    r := Ok(invitation);
  }

  /** The rows a `WHERE token = ? AND expires_at > ?` matches. */
  function LiveWithToken(invitations: map<nat, Invitation>, token: string, now: int): set<nat>
  {
    set k | k in invitations && invitations[k].token == token && invitations[k].expiresAt > now
  }

  /** `GetPendingInvitationByToken`: the first row with the token that
      expires strictly after `now`. */
  function GetPendingInvitationByToken(invitations: map<nat, Invitation>, token: string, now: int)
    : (r: Result<Invitation>)
    requires InvitationsKeyed(invitations)
    ensures r.Ok? <==> LiveWithToken(invitations, token, now) != {}
    ensures r.Ok? ==> (r.value.id in invitations && invitations[r.value.id] == r.value
                       && r.value.token == token && now < r.value.expiresAt)
    ensures r.Ok? ==> forall k :: k in LiveWithToken(invitations, token, now) ==> r.value.id <= k
    ensures r.Err? ==> r.message == InvitationNotFound
  {
    var live := LiveWithToken(invitations, token, now);
    if live == {} then Err(InvitationNotFound)
    else
      assert Least(live) in invitations;
      Ok(invitations[Least(live)])
  }

  /** The table after `DeleteExpiredInvitations`: rows whose expiry is
      strictly before `now` are gone. */
  function Unexpired(invitations: map<nat, Invitation>, now: int): map<nat, Invitation>
  {
    map k | k in invitations && !(invitations[k].expiresAt < now) :: invitations[k]
  }

  /** The two comparisons differ at the boundary: an invitation expiring
      exactly at `now` can no longer be redeemed, yet the sweep keeps it;
      one that can still be redeemed is never swept. */
  lemma ExpiryBoundary(invitations: map<nat, Invitation>, now: int, k: nat)
    requires InvitationsKeyed(invitations) && k in invitations
    ensures invitations[k].expiresAt == now ==>
      k !in LiveWithToken(invitations, invitations[k].token, now) && k in Unexpired(invitations, now)
    ensures k in LiveWithToken(invitations, invitations[k].token, now) ==> k in Unexpired(invitations, now)
    ensures k !in Unexpired(invitations, now) <==> invitations[k].expiresAt < now
  {
  }

  method DeleteExpiredInvitations(db: Db, now: int)
    requires db.Valid()
    modifies db`invitations
    ensures db.Valid()
    ensures db.invitations == Unexpired(old(db.invitations), now)
  {
    db.invitations := Unexpired(db.invitations, now);
  }

  /** Live rows for a child (or for a token), in key order. */
  function GetPendingInvitationsByChild(invitations: map<nat, Invitation>, childId: nat, now: int)
    : (r: seq<Invitation>)
    requires InvitationsKeyed(invitations)
    ensures forall v :: v in r <==> (v.id in invitations && invitations[v.id] == v && v.childId == childId
                                     && now < v.expiresAt)
    ensures forall i, j :: 0 <= i < j < |r| ==> r[i].id < r[j].id
  {
    var ids := set k | k in invitations && invitations[k].childId == childId && invitations[k].expiresAt > now;
    RowsAtSortedKeys(invitations, ids);
    RowsAt(invitations, SortedKeys(ids))
  }

  function GetPendingInvitationsByToken(invitations: map<nat, Invitation>, token: string, now: int)
    : (r: seq<Invitation>)
    requires InvitationsKeyed(invitations)
    ensures |r| == |LiveWithToken(invitations, token, now)|
    ensures forall v :: v in r <==> (v.id in invitations && invitations[v.id] == v && v.token == token
                                     && now < v.expiresAt)
    ensures forall i, j :: 0 <= i < j < |r| ==> r[i].id < r[j].id
  {
    var ids := LiveWithToken(invitations, token, now);
    RowsAtSortedKeys(invitations, ids);
    RowsAt(invitations, SortedKeys(ids))
  }

  /** The registration request `ProcessInvitationRegistration` hands to
      `CreateUser`: never an explicit admin. */
  function InvitedUserRequest(req: CreateUserWithInvitationRequest): CreateUserRequest
  {
    CreateUserRequest(req.email, req.password, req.firstName, req.lastName, false)
  }

  /** The checks `ProcessInvitationRegistration` makes before writing: the
      token must be live, the email must be the invited one and must have
      no account. */
  function RedemptionCheck(invitations: map<nat, Invitation>, users: map<nat, User>,
                           req: CreateUserWithInvitationRequest, now: int): (r: Result<Invitation>)
    requires InvitationsKeyed(invitations)
    ensures LiveWithToken(invitations, req.invitationToken, now) == {} ==> r == Err(InvitationNotFound)
    ensures r.Ok? <==> (LiveWithToken(invitations, req.invitationToken, now) != {}
                        && GetPendingInvitationByToken(invitations, req.invitationToken, now).value.email
                           == req.email
                        && !EmailTaken(users, req.email))
    ensures r.Ok? ==> (r.value.id in LiveWithToken(invitations, req.invitationToken, now)
                       && invitations[r.value.id] == r.value && r.value.email == req.email)
    ensures r.Err? ==> r.message in {InvitationNotFound, EmailMismatch, UserService.EmailExists}
  {
    var found := GetPendingInvitationByToken(invitations, req.invitationToken, now);
    if found.Err? then Err(found.message)
    else if found.value.email != req.email then Err(EmailMismatch)
    else if EmailTaken(users, req.email) then Err(UserService.EmailExists)
    else Ok(found.value)
  }

  /** Account creation followed by one grant, as a single-child redemption
      does them once the invitation has been checked. */
  method RegisterWithGrant(db: Db, req: CreateUserRequest, childId: nat, permissionType: PermType,
                           salt: seq<Byte>, random: RandomRead, now: int) returns (r: Result<User>)
    requires db.Valid()
    modifies db`users, db`permissions, db`nextId
    ensures db.Valid()
    ensures r == UserService.NewUser(old(db.users), req, salt, random, old(db.nextId), now)
    ensures r.Err? ==> (db.users == old(db.users) && db.permissions == old(db.permissions)
                        && db.nextId == old(db.nextId))
    ensures r.Ok? ==> (db.users == old(db.users)[r.value.id := r.value]
                       && db.permissions == PermissionService.Upsert(old(db.permissions), r.value.id, childId,
                                                                     permissionType, old(db.nextId) + 1, now))
  {
    r := UserService.CreateUser(db, req, salt, random, now);
    if r.Err? {
      return;
    }
    PermissionService.CreatePermission(db, r.value.id, childId, permissionType, now);
  }

  /** Nothing written before a refusal. On success the user exists, holds a
      row for the invited child with the invited type, and the invitation is
      gone. The request never asks for admin, but `CreateUser` still makes
      the very first account an admin. */
  method ProcessInvitationRegistration(db: Db, req: CreateUserWithInvitationRequest, salt: seq<Byte>,
                                       random: RandomRead, now: int) returns (r: Result<User>)
    requires db.Valid()
    modifies db`users, db`permissions, db`invitations, db`nextId
    ensures db.Valid()
    ensures var check := RedemptionCheck(old(db.invitations), old(db.users), req, now);
      && (check.Err? ==> r == Err(check.message))
      && (check.Ok? ==> r == UserService.NewUser(old(db.users), InvitedUserRequest(req), salt, random,
                                                 old(db.nextId), now))
    ensures r.Err? ==> (db.users == old(db.users) && db.permissions == old(db.permissions)
                        && db.invitations == old(db.invitations) && db.nextId == old(db.nextId))
    ensures r.Ok? ==>
      var inv := RedemptionCheck(old(db.invitations), old(db.users), req, now).value;
      && db.users == old(db.users)[r.value.id := r.value]
      && db.permissions == PermissionService.Upsert(old(db.permissions), r.value.id, inv.childId,
                                                    inv.permissionType, old(db.nextId) + 1, now)
      && db.invitations == old(db.invitations) - {inv.id}
  {
    var check := RedemptionCheck(db.invitations, db.users, req, now);
    if check.Err? {
      return Err(check.message);
    }
    var invitation := check.value;
    r := RegisterWithGrant(db, InvitedUserRequest(req), invitation.childId, invitation.permissionType,
                           salt, random, now);
    if r.Err? {
      return;
    }
    db.invitations := db.invitations - {invitation.id};
  }

  /** `base` with the invitations a bulk invite writes: one per listed
      child, under consecutive keys from `firstId`, all with the same token
      and expiry. */
  function WithBulkRows(base: map<nat, Invitation>, grants: seq<ChildGrant>, email: string, invitedById: nat,
                        token: string, expiresAt: int, firstId: nat): (r: map<nat, Invitation>)
    ensures forall k :: k in r <==> k in base || firstId <= k < firstId + |grants|
    ensures forall k :: k in base && !(firstId <= k < firstId + |grants|) ==> r[k] == base[k]
    ensures forall k :: firstId <= k < firstId + |grants| ==>
      (r[k].id == k && r[k].email == email && r[k].token == token
       && r[k].expiresAt == expiresAt && r[k].invitedById == invitedById
       && r[k].childId == grants[k - firstId].childId
       && r[k].permissionType == grants[k - firstId].permissionType)
    decreases |grants|
  {
    if grants == [] then base
    else
      var last := firstId + |grants| - 1;
      var g := grants[|grants| - 1];
      WithBulkRows(base, grants[..|grants| - 1], email, invitedById, token, expiresAt, firstId)[
        last := Invitation(last, email, g.childId, g.permissionType, invitedById, token, expiresAt)]
  }

  /** The table without any invitation for the email. */
  function WithoutEmail(invitations: map<nat, Invitation>, email: string): map<nat, Invitation>
  {
    map k | k in invitations && invitations[k].email != email :: invitations[k]
  }

  /** After a bulk invite, while it is live, its token redeems exactly the
      rows it wrote, provided no other email's invitation drew the same
      token. */
  lemma BulkTokenFindsItsRows(invitations: map<nat, Invitation>, grants: seq<ChildGrant>, email: string,
                              invitedById: nat, token: string, issued: int, firstId: nat, now: int)
    requires forall k :: k in invitations ==> k < firstId
    requires forall k :: k in invitations && invitations[k].email != email ==> invitations[k].token != token
    requires now < GetInvitationExpiration(issued)
    ensures var r := WithBulkRows(WithoutEmail(invitations, email), grants, email, invitedById, token,
                                  GetInvitationExpiration(issued), firstId);
      forall k :: k in LiveWithToken(r, token, now) <==> firstId <= k < firstId + |grants|
  {
  }

  /** The loop that writes one invitation per listed child. */
  method InsertBulkRows(db: Db, grants: seq<ChildGrant>, email: string, invitedById: nat, token: string,
                        expiresAt: int)
    requires db.Valid()
    modifies db`invitations, db`nextId
    ensures db.Valid()
    ensures db.invitations == WithBulkRows(old(db.invitations), grants, email, invitedById, token, expiresAt,
                                           old(db.nextId))
    ensures db.nextId == old(db.nextId) + |grants|
  {
    var firstId := db.nextId;
    for i := 0 to |grants|
      invariant db.Valid() && db.nextId == firstId + i
      invariant db.invitations == WithBulkRows(old(db.invitations), grants[..i], email, invitedById, token,
                                               expiresAt, firstId)
    {
      var id := db.NewId();
      var invitation := Invitation(id, email, grants[i].childId, grants[i].permissionType, invitedById, token,
                                   expiresAt);
      assert grants[..i + 1][..i] == grants[..i];
      db.invitations := db.invitations[id := invitation];
    }
    assert grants[..|grants|] == grants;
  }

  /** `CreateBulkPendingInvitation`: one token for every child listed;
      earlier invitations for the email are dropped first. */
  method CreateBulkPendingInvitation(db: Db, email: string, grants: seq<ChildGrant>, invitedById: nat,
                                     random: RandomRead, now: int) returns (r: Result<string>)
    requires db.Valid()
    modifies db`invitations, db`nextId
    ensures db.Valid()
    ensures random.None? ==> (r == Err(RandomReadFailed) && db.invitations == old(db.invitations)
                              && db.nextId == old(db.nextId))
    ensures random.Some? ==> (r == GenerateToken(random) && r.Ok?
                              && db.invitations == WithBulkRows(WithoutEmail(old(db.invitations), email),
                                   grants, email, invitedById, r.value, GetInvitationExpiration(now),
                                   old(db.nextId))
                              && db.nextId == old(db.nextId) + |grants|)
  {
    r := GenerateToken(random);
    if r.Err? {
      return;
    }
    db.invitations := WithoutEmail(db.invitations, email);
    InsertBulkRows(db, grants, email, invitedById, r.value, GetInvitationExpiration(now));
  }

  /** The live invitations' children and levels, in key order. */
  function GrantsOf(rows: seq<Invitation>): (r: seq<ChildGrant>)
    ensures |r| == |rows|
    ensures forall i :: 0 <= i < |rows| ==> r[i] == ChildGrant(rows[i].childId, rows[i].permissionType)
  {
    seq(|rows|, i requires 0 <= i < |rows| => ChildGrant(rows[i].childId, rows[i].permissionType))
  }

  /** The table without any invitation carrying the token, live or not. */
  function WithoutToken(invitations: map<nat, Invitation>, token: string): map<nat, Invitation>
  {
    map k | k in invitations && invitations[k].token != token :: invitations[k]
  }

  /** `DELETE FROM invitations WHERE token = ?` */
  method DeleteByToken(db: Db, token: string)
    requires db.Valid()
    modifies db`invitations
    ensures db.Valid()
    ensures db.invitations == WithoutToken(old(db.invitations), token)
  {
    db.invitations := WithoutToken(db.invitations, token);
  }

  /** Redeeming a bulk invitation gives the new user a row on every
      invited child. */
  lemma BulkGrantsCoverInvitations(rows: seq<Invitation>, permissions: map<nat, Permission>, userId: nat,
                                   nextId: nat, now: int)
    requires KeysBelow(permissions, nextId) && 0 < nextId
    ensures var r := PermissionService.GrantAll(permissions, userId, GrantsOf(rows), nextId, now).0;
      forall v :: v in rows ==> HasAnyPermissionRow(r, userId, v.childId)
  {
    var grants := GrantsOf(rows);
    PermissionService.GrantAllCovers(permissions, userId, grants, nextId, now);
    forall v | v in rows ensures ChildGrant(v.childId, v.permissionType) in grants {
      var i :| 0 <= i < |rows| && rows[i] == v;
      assert grants[i] == ChildGrant(v.childId, v.permissionType);
    }
  }

  /** Account creation followed by the grants, as a bulk redemption does
      them once the invitation has been checked. */
  method RegisterWithGrants(db: Db, req: CreateUserRequest, grants: seq<ChildGrant>, salt: seq<Byte>,
                            random: RandomRead, now: int) returns (r: Result<User>)
    requires db.Valid()
    modifies db`users, db`permissions, db`nextId
    ensures db.Valid()
    ensures r == UserService.NewUser(old(db.users), req, salt, random, old(db.nextId), now)
    ensures r.Err? ==> (db.users == old(db.users) && db.permissions == old(db.permissions)
                        && db.nextId == old(db.nextId))
    ensures r.Ok? ==> (db.users == old(db.users)[r.value.id := r.value]
                       && (db.permissions, db.nextId) == PermissionService.GrantAll(old(db.permissions), r.value.id,
                                                                                   grants, old(db.nextId) + 1, now))
  {
    r := UserService.CreateUser(db, req, salt, random, now);
    if r.Err? {
      return;
    }
    PermissionService.GrantEach(db, r.value.id, grants, now);
  }

  /** The checks `ProcessBulkInvitationRegistration` makes before writing:
      some live invitation carries the token, the first of them names the
      registering email, and that email has no account yet. Only the first
      invitation's email is compared. */
  function BulkRedemptionCheck(invitations: map<nat, Invitation>, users: map<nat, User>,
                               req: CreateUserWithInvitationRequest, now: int): (r: Result<seq<Invitation>>)
    requires InvitationsKeyed(invitations)
    ensures LiveWithToken(invitations, req.invitationToken, now) == {} ==> r == Err(InvitationNotFound)
    ensures r.Ok? ==> r.value == GetPendingInvitationsByToken(invitations, req.invitationToken, now)
    ensures r.Ok? <==> (LiveWithToken(invitations, req.invitationToken, now) != {}
                        && GetPendingInvitationsByToken(invitations, req.invitationToken, now)[0].email == req.email
                        && !EmailTaken(users, req.email))
    ensures r.Err? ==> r.message in {InvitationNotFound, EmailMismatch, UserService.EmailExists}
  {
    var rows := GetPendingInvitationsByToken(invitations, req.invitationToken, now);
    if |rows| == 0 then Err(InvitationNotFound)
    else if rows[0].email != req.email then Err(EmailMismatch)
    else if EmailTaken(users, req.email) then Err(UserService.EmailExists)
    else Ok(rows)
  }

  /** `ProcessBulkInvitationRegistration`: after the checks, every live
      invitation becomes a grant (a child listed twice keeps the later
      level), and every invitation with the token, expired ones included,
      is removed. */
  method ProcessBulkInvitationRegistration(db: Db, req: CreateUserWithInvitationRequest, salt: seq<Byte>,
                                           random: RandomRead, now: int) returns (r: Result<User>)
    requires db.Valid()
    modifies db`users, db`permissions, db`invitations, db`nextId
    ensures db.Valid()
    ensures var check := BulkRedemptionCheck(old(db.invitations), old(db.users), req, now);
      && (check.Err? ==> r == Err(check.message))
      && (check.Ok? ==> r == UserService.NewUser(old(db.users), InvitedUserRequest(req), salt, random,
                                                 old(db.nextId), now))
    ensures r.Err? ==> (db.users == old(db.users) && db.permissions == old(db.permissions)
                        && db.invitations == old(db.invitations) && db.nextId == old(db.nextId))
    ensures r.Ok? ==>
      var rows := BulkRedemptionCheck(old(db.invitations), old(db.users), req, now).value;
      && db.users == old(db.users)[r.value.id := r.value]
      && (db.permissions, db.nextId) == PermissionService.GrantAll(old(db.permissions), r.value.id,
                                                                   GrantsOf(rows), old(db.nextId) + 1, now)
      && db.invitations == WithoutToken(old(db.invitations), req.invitationToken)
  {
    var check := BulkRedemptionCheck(db.invitations, db.users, req, now);
    if check.Err? {
      return Err(check.message);
    }
    r := RegisterWithGrants(db, InvitedUserRequest(req), GrantsOf(check.value), salt, random, now);
    if r.Err? {
      return;
    }
    DeleteByToken(db, req.invitationToken);
  }
}

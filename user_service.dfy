/** Accounts in `backend-go/services/user.go`: registration, profile
    updates, deletion, email verification and password reset. Each
    operation is a decision over the users table (a function) and a method
    that looks the row up and writes the decision back. */
module UserService {
  import opened Common
  import opened Records
  import opened Store
  import opened Credentials
  import opened Tokens
  import opened Collections

  const EmailExists: string := "user with this email already exists"
  const UserNotFound: string := "user not found"
  const EmailTakenByOther: string := "email already taken by another user"
  const EmailAlreadyVerified: string := "email address is already verified"
  const InvalidVerificationToken: string := "invalid verification token"
  const VerificationTokenExpired: string := "verification token has expired"
  const AlreadyVerified: string := "email is already verified"
  const InvalidResetToken: string := "invalid reset token"
  const ResetTokenExpired: string := "reset token has expired"

  /** An empty token is never a live one: a user whose verification token
      is empty has verified, and a user whose reset token is empty has no
      reset expiry. Every operation here keeps this. */
  predicate TokensWellFormed(users: map<nat, User>)
  {
    forall k :: k in users ==>
      (users[k].verificationToken == "" ==> users[k].emailVerified)
      && (users[k].resetToken == "" ==> users[k].resetExpiresAt.None?)
  }

  /** The row `CreateUser` inserts, or why it inserts none. */
  function NewUser(users: map<nat, User>, req: CreateUserRequest, salt: seq<Byte>, random: RandomRead,
                   id: nat, now: int): (r: Result<User>)
    ensures EmailTaken(users, req.email) ==> r == Err(EmailExists)
    ensures !EmailTaken(users, req.email) && random.None? ==> r == Err(RandomReadFailed)
    ensures r.Ok? <==> !EmailTaken(users, req.email) && random.Some?
    ensures r.Ok? ==> (r.value.id == id && r.value.email == req.email
      && r.value.firstName == req.firstName && r.value.lastName == req.lastName)
    ensures r.Ok? ==> (r.value.isAdmin <==> req.isAdmin || users == map[])
    ensures r.Ok? ==> (VerifyPassword(req.password, r.value.passwordHash)
      && forall p :: VerifyPassword(p, r.value.passwordHash) ==> p == req.password)
    ensures r.Ok? ==> (!r.value.emailVerified && |r.value.verificationToken| == 64
      && r.value.tokenExpiresAt == Some(now + DayMs)
      && r.value.resetToken == "" && r.value.resetExpiresAt.None?)
  {
    if EmailTaken(users, req.email) then Err(EmailExists)
    else
      var hash := HashPassword(req.password, salt);
      match GenerateToken(random)
      case Err(e) => Err(e)
      case Ok(token) =>
        var isAdmin := if req.isAdmin then true else |users| == 0;
        Ok(User(id, req.email, hash, req.firstName, req.lastName, isAdmin, false, token,
                Some(GetTokenExpiration(now)), "", None, now, now))
  }

  /** A successful registration keeps emails unique and every token live. */
  lemma NewUserKeepsInvariants(users: map<nat, User>, req: CreateUserRequest, salt: seq<Byte>,
                               random: RandomRead, id: nat, now: int)
    requires UniqueEmails(users) && id !in users
    requires NewUser(users, req, salt, random, id, now).Ok?
    ensures var u := NewUser(users, req, salt, random, id, now).value;
      UniqueEmails(users[id := u]) && (TokensWellFormed(users) ==> TokensWellFormed(users[id := u]))
  {
    var u := NewUser(users, req, salt, random, id, now).value;
    assert u.verificationToken != "";
  }

  method CreateUser(db: Db, req: CreateUserRequest, salt: seq<Byte>, random: RandomRead, now: int)
    returns (r: Result<User>)
    requires db.Valid()
    modifies db`users, db`nextId
    ensures db.Valid()
    ensures r == NewUser(old(db.users), req, salt, random, old(db.nextId), now)
    ensures r.Ok? ==> db.users == old(db.users)[r.value.id := r.value] && db.nextId == old(db.nextId) + 1
    ensures r.Err? ==> db.users == old(db.users) && db.nextId == old(db.nextId)
    ensures TokensWellFormed(old(db.users)) ==> TokensWellFormed(db.users)
  {
    if EmailTaken(db.users, req.email) {
      return Err(EmailExists);
    }
    var hash := HashPassword(req.password, salt);
    var token := GenerateToken(random);
    if token.Err? {
      return Err(token.message);
    }
    var isAdmin: bool;
    if req.isAdmin {
      isAdmin := true;
    } else {
      isAdmin := |db.users| == 0;
    }
    var id := db.NewId();
    var user := User(id, req.email, hash, req.firstName, req.lastName, isAdmin, false, token.value,
                     Some(GetTokenExpiration(now)), "", None, now, now);
    assert NewUser(old(db.users), req, salt, random, id, now) == Ok(user);
    NewUserKeepsInvariants(db.users, req, salt, random, id, now);
    db.users := db.users[id := user];
    r := Ok(user);
  }

  function GetUserByID(users: map<nat, User>, id: nat): (r: Result<User>)
    ensures r.Ok? <==> id in users
    ensures r.Ok? ==> r.value == users[id]
    ensures r.Err? ==> r.message == UserNotFound
  {
    if id in users then Ok(users[id]) else Err(UserNotFound)
  }

  function GetUserByEmail(users: map<nat, User>, email: string): (r: Result<User>)
    requires UniqueEmails(users)
    ensures r.Ok? <==> EmailTaken(users, email)
    ensures r.Ok? ==> r.value.email == email && r.value in users.Values
    ensures r.Err? ==> r.message == UserNotFound
  {
    match UserByEmail(users, email)
    case Some(u) => Ok(u)
    case None => Err(UserNotFound)
  }

  /** Every user, in key order. */
  function GetAllUsers(users: map<nat, User>): (r: seq<User>)
    requires UsersKeyed(users)
    ensures |r| == |users|
    ensures forall u :: u in r <==> u in users.Values
    ensures forall i, j :: 0 <= i < j < |r| ==> r[i].id < r[j].id
  {
    RowsAtSortedKeys(users, users.Keys);
    assert |users.Keys| == |users|;
    RowsAt(users, SortedKeys(users.Keys))
  }

  /** Another row than `id` holds the email. */
  predicate EmailHeldByOther(users: map<nat, User>, email: string, id: nat)
  {
    exists k :: k in users && k != id && users[k].email == email
  }

  /** `UpdateUser`: only the email, the names and the admin flag change. */
  function UpdatedUser(users: map<nat, User>, id: nat, req: UpdateUserRequest, now: int): (r: Result<User>)
    ensures id !in users ==> r == Err(UserNotFound)
    ensures id in users && EmailHeldByOther(users, req.email, id) ==> r == Err(EmailTakenByOther)
    ensures r.Ok? <==> id in users && !EmailHeldByOther(users, req.email, id)
    ensures r.Ok? ==> (r.value.email == req.email && r.value.firstName == req.firstName
      && r.value.lastName == req.lastName && r.value.isAdmin == req.isAdmin)
    ensures r.Ok? ==> r.value.(email := users[id].email, firstName := users[id].firstName,
                               lastName := users[id].lastName, isAdmin := users[id].isAdmin,
                               updatedAt := users[id].updatedAt) == users[id]
  {
    if id !in users then Err(UserNotFound)
    else if EmailHeldByOther(users, req.email, id) then Err(EmailTakenByOther)
    else Ok(users[id].(email := req.email, firstName := req.firstName, lastName := req.lastName,
                       isAdmin := req.isAdmin, updatedAt := now))
  }

  /** Changing a user's email never breaks the unique index. */
  lemma UpdatedUserKeepsEmailsUnique(users: map<nat, User>, id: nat, req: UpdateUserRequest, now: int)
    requires UniqueEmails(users) && UpdatedUser(users, id, req, now).Ok?
    ensures UniqueEmails(users[id := UpdatedUser(users, id, req, now).value])
  {
    var u := UpdatedUser(users, id, req, now).value;
    forall k | k in users && k != id ensures users[k].email != req.email {
      assert !EmailHeldByOther(users, req.email, id);
    }
  }

  method UpdateUser(db: Db, id: nat, req: UpdateUserRequest, now: int) returns (r: Result<User>)
    requires db.Valid()
    modifies db`users
    ensures db.Valid()
    ensures r == UpdatedUser(old(db.users), id, req, now)
    ensures r.Ok? ==> db.users == old(db.users)[id := r.value]
    ensures r.Err? ==> db.users == old(db.users)
    ensures TokensWellFormed(old(db.users)) ==> TokensWellFormed(db.users)
  {
    if id !in db.users {
      return Err(UserNotFound);
    }
    var user := db.users[id];
    if EmailHeldByOther(db.users, req.email, id) {
      return Err(EmailTakenByOther);
    }
    user := user.(email := req.email, firstName := req.firstName, lastName := req.lastName,
                  isAdmin := req.isAdmin, updatedAt := now);
    UpdatedUserKeepsEmailsUnique(db.users, id, req, now);
    db.users := db.users[id := user];
    r := Ok(user);
  }

  /** `DeleteUser`: "user not found" when no row was removed. */
  method DeleteUser(db: Db, id: nat) returns (r: Result<()>)
    requires db.Valid()
    modifies db`users
    ensures db.Valid()
    ensures r.Ok? <==> id in old(db.users)
    ensures r.Err? ==> r.message == UserNotFound
    ensures db.users == old(db.users) - {id}
    ensures TokensWellFormed(old(db.users)) ==> TokensWellFormed(db.users)
  {
    if id !in db.users {
      return Err(UserNotFound);
    }
    db.users := db.users - {id};
    r := Ok(());
  }

  /** The rows a `WHERE email_verification_token = ?` matches. */
  function WithVerificationToken(users: map<nat, User>, token: string): set<nat>
  {
    set k | k in users && users[k].verificationToken == token
  }

  /** Some verified user has an empty token (the fallback query). */
  predicate SomeVerifiedWithoutToken(users: map<nat, User>)
  {
    exists k :: k in users && users[k].emailVerified && users[k].verificationToken == ""
  }

  /** `VerifyEmail`'s decision: the first row holding the token, if it is
      unverified and its token has not expired, becomes verified with its
      token and expiry cleared. */
  function VerifiedUser(users: map<nat, User>, token: string, now: int): (r: Result<User>)
    requires UsersKeyed(users)
    ensures WithVerificationToken(users, token) == {} ==>
      r == Err(if SomeVerifiedWithoutToken(users) then EmailAlreadyVerified else InvalidVerificationToken)
    ensures var hits := WithVerificationToken(users, token);
      hits != {} && users[Least(hits)].emailVerified ==> r == Err(EmailAlreadyVerified)
    ensures var hits := WithVerificationToken(users, token);
      (hits != {} && !users[Least(hits)].emailVerified && IsTokenExpired(users[Least(hits)].tokenExpiresAt, now))
        ==> r == Err(VerificationTokenExpired)
    ensures var hits := WithVerificationToken(users, token);
      r.Ok? <==> hits != {} && !users[Least(hits)].emailVerified
                 && !IsTokenExpired(users[Least(hits)].tokenExpiresAt, now)
    ensures r.Ok? ==> r.value.id == Least(WithVerificationToken(users, token))
    ensures r.Ok? ==> r.value.id in users && users[r.value.id] == r.value.(emailVerified := false,
        verificationToken := token, tokenExpiresAt := users[r.value.id].tokenExpiresAt,
        updatedAt := users[r.value.id].updatedAt)
    ensures r.Ok? ==> !IsTokenExpired(users[r.value.id].tokenExpiresAt, now)
    ensures r.Ok? ==> r.value.emailVerified && r.value.verificationToken == "" && r.value.tokenExpiresAt.None?
  {
    var hits := WithVerificationToken(users, token);
    if hits == {} then
      if SomeVerifiedWithoutToken(users) then Err(EmailAlreadyVerified) else Err(InvalidVerificationToken)
    else
      var user := users[Least(hits)];
      if user.emailVerified then Err(EmailAlreadyVerified)
      else if IsTokenExpired(user.tokenExpiresAt, now) then Err(VerificationTokenExpired)
      else Ok(user.(emailVerified := true, verificationToken := "", tokenExpiresAt := None, updatedAt := now))
  }

  /** An empty token verifies nobody: it either matches no row, or only
      rows that are already verified. */
  lemma EmptyVerificationTokenNeverVerifies(users: map<nat, User>, now: int)
    requires UsersKeyed(users) && TokensWellFormed(users)
    ensures VerifiedUser(users, "", now).Err?
  {
  }

  /** A token that only one user holds works once: after it has verified
      that user, the same token is refused. */
  lemma VerificationTokenSingleUse(users: map<nat, User>, token: string, now: int, later: int)
    requires UsersKeyed(users) && token != ""
    requires forall a, b ::
      (a in users && b in users && users[a].verificationToken == token
       && users[b].verificationToken == token) ==> a == b
    requires VerifiedUser(users, token, now).Ok?
    ensures var u := VerifiedUser(users, token, now).value;
      VerifiedUser(users[u.id := u], token, later).Err?
  {
    var u := VerifiedUser(users, token, now).value;
    assert WithVerificationToken(users[u.id := u], token) == {} by {
      assert users[u.id].verificationToken == token;
      forall k | k in users && k != u.id ensures users[k].verificationToken != token {
      }
    }
  }

  method VerifyEmail(db: Db, token: string, now: int) returns (r: Result<User>)
    requires db.Valid()
    modifies db`users
    ensures db.Valid()
    ensures r == VerifiedUser(old(db.users), token, now)
    ensures r.Ok? ==> db.users == old(db.users)[r.value.id := r.value]
    ensures r.Err? ==> db.users == old(db.users)
    ensures TokensWellFormed(old(db.users)) ==> TokensWellFormed(db.users)
  {
    var hits := WithVerificationToken(db.users, token);
    if hits == {} {
      if SomeVerifiedWithoutToken(db.users) {
        return Err(EmailAlreadyVerified);
      }
      return Err(InvalidVerificationToken);
    }
    var user := db.users[Least(hits)];
    if user.emailVerified {
      return Err(EmailAlreadyVerified);
    }
    if IsTokenExpired(user.tokenExpiresAt, now) {
      return Err(VerificationTokenExpired);
    }
    user := user.(emailVerified := true, verificationToken := "", tokenExpiresAt := None, updatedAt := now);
    db.users := db.users[user.id := user];
    r := Ok(user);
  }

  /** `GetUserByVerificationToken` */
  function GetUserByVerificationToken(users: map<nat, User>, token: string): (r: Result<User>)
    ensures r.Ok? <==> WithVerificationToken(users, token) != {}
    ensures r.Ok? ==> r.value in users.Values && r.value.verificationToken == token
    ensures r.Err? ==> r.message == InvalidVerificationToken
  {
    var hits := WithVerificationToken(users, token);
    if hits == {} then Err(InvalidVerificationToken) else Ok(users[Least(hits)])
  }

  /** `ResendVerificationEmail`: a fresh token valid for 24 hours, for an
      unverified user. */
  method ResendVerificationEmail(db: Db, email: string, random: RandomRead, now: int) returns (r: Result<User>)
    requires db.Valid()
    modifies db`users
    ensures db.Valid()
    ensures !EmailTaken(old(db.users), email) ==> r == Err(UserNotFound)
    ensures r.Ok? <==> (EmailTaken(old(db.users), email) && random.Some?
      && !UserByEmail(old(db.users), email).value.emailVerified)
    ensures r.Ok? ==> var u := UserByEmail(old(db.users), email).value;
      r.value == u.(verificationToken := GenerateToken(random).value,
                    tokenExpiresAt := Some(GetTokenExpiration(now)), updatedAt := now)
      && db.users == old(db.users)[u.id := r.value]
    ensures r.Err? ==> db.users == old(db.users)
    ensures TokensWellFormed(old(db.users)) ==> TokensWellFormed(db.users)
  {
    var found := UserByEmail(db.users, email);
    if found.None? {
      return Err(UserNotFound);
    }
    var user := found.value;
    if user.emailVerified {
      return Err(AlreadyVerified);
    }
    var token := GenerateToken(random);
    if token.Err? {
      return Err(token.message);
    }
    user := user.(verificationToken := token.value, tokenExpiresAt := Some(GetTokenExpiration(now)),
                  updatedAt := now);
    db.users := db.users[user.id := user];
    r := Ok(user);
  }

  /** `RequestPasswordReset`: a fresh reset token valid for one hour. */
  method RequestPasswordReset(db: Db, email: string, random: RandomRead, now: int) returns (r: Result<User>)
    requires db.Valid()
    modifies db`users
    ensures db.Valid()
    ensures !EmailTaken(old(db.users), email) ==> r == Err(UserNotFound)
    ensures r.Ok? <==> EmailTaken(old(db.users), email) && random.Some?
    ensures r.Ok? ==> var u := UserByEmail(old(db.users), email).value;
      r.value == u.(resetToken := GenerateToken(random).value, resetExpiresAt := Some(now + HourMs),
                    updatedAt := now)
      && db.users == old(db.users)[u.id := r.value]
    ensures r.Err? ==> db.users == old(db.users)
    ensures TokensWellFormed(old(db.users)) ==> TokensWellFormed(db.users)
  {
    var found := UserByEmail(db.users, email);
    if found.None? {
      return Err(UserNotFound);
    }
    var user := found.value;
    var token := GenerateToken(random);
    if token.Err? {
      return Err(token.message);
    }
    user := user.(resetToken := token.value, resetExpiresAt := Some(now + HourMs), updatedAt := now);
    db.users := db.users[user.id := user];
    r := Ok(user);
  }

  /** The rows a `WHERE password_reset_token = ?` matches. */
  function WithResetToken(users: map<nat, User>, token: string): set<nat>
  {
    set k | k in users && users[k].resetToken == token
  }

  /** `ResetPassword`'s decision: the first row holding the token, unless
      its expiry is missing or strictly past, gets the new hash and loses
      its reset token. */
  function ResetUser(users: map<nat, User>, token: string, newPassword: string, salt: seq<Byte>,
                     now: int): (r: Result<User>)
    requires UsersKeyed(users)
    ensures WithResetToken(users, token) == {} ==> r == Err(InvalidResetToken)
    ensures var hits := WithResetToken(users, token);
      (hits != {} && (users[Least(hits)].resetExpiresAt.None? || now > users[Least(hits)].resetExpiresAt.value))
        ==> r == Err(ResetTokenExpired)
    ensures var hits := WithResetToken(users, token);
      r.Ok? <==> hits != {} && users[Least(hits)].resetExpiresAt.Some?
                 && now <= users[Least(hits)].resetExpiresAt.value
    ensures r.Ok? ==> r.value.id == Least(WithResetToken(users, token))
    ensures r.Ok? ==> r.value.id in users && r.value == users[r.value.id].(passwordHash := HashPassword(newPassword, salt),
        resetToken := "", resetExpiresAt := None, updatedAt := now)
    ensures r.Ok? ==> (r.value.id in users && users[r.value.id].resetToken == token
      && users[r.value.id].resetExpiresAt.Some? && now <= users[r.value.id].resetExpiresAt.value)
    ensures r.Ok? ==> (VerifyPassword(newPassword, r.value.passwordHash)
      && forall p :: VerifyPassword(p, r.value.passwordHash) ==> p == newPassword)
    ensures r.Ok? ==> (r.value.resetToken == "" && r.value.resetExpiresAt.None?
      && r.value.email == users[r.value.id].email && r.value.isAdmin == users[r.value.id].isAdmin)
  {
    var hits := WithResetToken(users, token);
    if hits == {} then Err(InvalidResetToken)
    else
      var user := users[Least(hits)];
      if user.resetExpiresAt.None? || now > user.resetExpiresAt.value then Err(ResetTokenExpired)
      else Ok(user.(passwordHash := HashPassword(newPassword, salt), resetToken := "", resetExpiresAt := None,
                    updatedAt := now))
  }

  /** An empty reset token resets nobody, since every row holding it has
      no expiry. */
  lemma EmptyResetTokenNeverResets(users: map<nat, User>, newPassword: string, salt: seq<Byte>, now: int)
    requires UsersKeyed(users) && TokensWellFormed(users)
    ensures ResetUser(users, "", newPassword, salt, now).Err?
  {
  }

  /** A reset requested at `issued` still works at `issued + 1 hour` and no
      later. */
  lemma ResetTokenLifetime(user: User, token: string, newPassword: string, salt: seq<Byte>,
                           issued: int, now: int)
    requires user.resetToken == token && user.resetExpiresAt == Some(issued + HourMs)
    ensures ResetUser(map[user.id := user], token, newPassword, salt, now).Ok? <==> now <= issued + HourMs
  {
    assert WithResetToken(map[user.id := user], token) == {user.id};
  }

  method ResetPassword(db: Db, token: string, newPassword: string, salt: seq<Byte>, now: int)
    returns (r: Result<User>)
    requires db.Valid()
    modifies db`users
    ensures db.Valid()
    ensures r == ResetUser(old(db.users), token, newPassword, salt, now)
    ensures r.Ok? ==> db.users == old(db.users)[r.value.id := r.value]
    ensures r.Err? ==> db.users == old(db.users)
    ensures TokensWellFormed(old(db.users)) ==> TokensWellFormed(db.users)
  {
    var hits := WithResetToken(db.users, token);
    if hits == {} {
      return Err(InvalidResetToken);
    }
    var user := db.users[Least(hits)];
    if user.resetExpiresAt.None? || now > user.resetExpiresAt.value {
      return Err(ResetTokenExpired);
    }
    var hashed := HashPassword(newPassword, salt);
    user := user.(passwordHash := hashed, resetToken := "", resetExpiresAt := None, updatedAt := now);
    db.users := db.users[user.id := user];
    r := Ok(user);
  }
}

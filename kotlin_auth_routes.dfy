/** The two auth routes of the Kotlin port
    (`backend/src/main/kotlin/com/booktracker/routes/AuthRoutes.kt`). Each
    body runs inside `try`/`catch (e: Exception)`: a body the lens cannot
    read (`None` here) throws and is answered 500. */
module KotlinAuthRoutes {
  import opened Common
  import opened Credentials
  import opened KotlinUserService
  import opened KotlinAuthService
  import opened Handlers

  const UserExists: string := "User with this email already exists"
  const RegistrationFailed: string := "Registration failed: "
  const InvalidCredentials: string := "Invalid credentials"
  const LoginFailed: string := "Login failed: "

  /** `registerUser`: an email that some user already has is refused with
      400 and nothing is stored; otherwise the password's hash (never the
      password) is stored in a new non-admin user, who is answered with 201. */
  method RegisterUser(table: UsersTable, body: Option<CreateUserRequest>, salt: seq<Byte>, now: string)
    returns (r: Reply<KotlinAuthService.UserResponse>)
    requires table.Valid()
    modifies table
    ensures table.Valid()
    ensures body.None? ==> r == Refused(StatusInternalServerError, RegistrationFailed)
    ensures body.Some? && GetUserByEmail(old(table.rows), body.value.email).Some? ==>
      r == Refused(StatusBadRequest, UserExists)
    ensures r.Refused? ==> table.rows == old(table.rows)
    ensures r.Answered? <==> body.Some? && GetUserByEmail(old(table.rows), body.value.email).None?
    ensures r.Answered? ==>
      var req := body.value;
      var user := User(old(table.nextId), req.email, HashPassword(req.password, salt), req.firstName, req.lastName,
                       false, now, now);
      && table.rows == old(table.rows)[user.id := user]
      && r == Answered(StatusCreated, UserResponseOf(user))
  {
    if body.None? {
      return Refused(StatusInternalServerError, RegistrationFailed);
    }
    var req := body.value;
    var existingUser := GetUserByEmail(table.rows, req.email);
    if existingUser.Some? {
      return Refused(StatusBadRequest, UserExists);
    }
    var passwordHash := HashPassword(req.password, salt);
    var created := KotlinUserService.CreateUser(table, req, passwordHash, now);
    var user := created.value;
    r := Answered(StatusCreated, UserResponseOf(user));
  }

  /** `loginUser`: 200 with the service's response, 401 whenever the
      service answers null, and 500 when signing the token throws. */
  function LoginUser(rows: map<nat, User>, body: Option<LoginRequest>, secret: string, now: int)
    : (r: Reply<LoginResponse>)
    ensures body.None? ==> r == Refused(StatusInternalServerError, LoginFailed)
    ensures body.Some? && Login(rows, body.value, secret, now).Threw? ==>
      r == Refused(StatusInternalServerError, LoginFailed + EmptyKeyMessage)
    ensures body.Some? && Login(rows, body.value, secret, now) == Returned(None) ==>
      r == Refused(StatusUnauthorized, InvalidCredentials)
    ensures body.Some? ==> (r.Answered? <==> Login(rows, body.value, secret, now).Returned?
                                             && Login(rows, body.value, secret, now).value.Some?)
    ensures r.Answered? ==> r == Answered(StatusOK, Login(rows, body.value, secret, now).value.value)
  {
    match body
    case None => Refused(StatusInternalServerError, LoginFailed)
    case Some(req) =>
      match Login(rows, req, secret, now)
      case Threw => Refused(StatusInternalServerError, LoginFailed + EmptyKeyMessage)
      case Returned(Some(resp)) => Answered(StatusOK, resp)
      case Returned(None) => Refused(StatusUnauthorized, InvalidCredentials)
  }

  /** Whoever registers can log in straight away with the same email and
      password, and the token names the new user; under an empty secret
      the same login is a 500 instead. */
  lemma RegisteredUserCanLogIn(rows: map<nat, User>, req: CreateUserRequest, id: nat, salt: seq<Byte>, created: string,
                               secret: string, now: int)
    requires UniqueEmails(rows) && id !in rows && GetUserByEmail(rows, req.email).None?
    ensures var user := User(id, req.email, HashPassword(req.password, salt), req.firstName, req.lastName,
                             false, created, created);
      LoginUser(rows[id := user], Some(LoginRequest(req.email, req.password)), secret, now)
        == if secret == "" then Refused(StatusInternalServerError, LoginFailed + EmptyKeyMessage)
           else Answered(StatusOK, LoginResponse(GenerateToken(id, secret, now).value, UserResponseOf(user)))
  {
    var user := User(id, req.email, HashPassword(req.password, salt), req.firstName, req.lastName,
                     false, created, created);
    InsertedUserIsFound(rows, user);
  }

  /** Registering an email twice stores one user: the second attempt is
      refused because the first one's row is found. */
  lemma SecondRegistrationRefused(rows: map<nat, User>, req: CreateUserRequest, id: nat, salt: seq<Byte>,
                                  created: string)
    requires UniqueEmails(rows) && id !in rows && GetUserByEmail(rows, req.email).None?
    ensures var user := User(id, req.email, HashPassword(req.password, salt), req.firstName, req.lastName,
                             false, created, created);
      GetUserByEmail(rows[id := user], req.email).Some?
  {
    var user := User(id, req.email, HashPassword(req.password, salt), req.firstName, req.lastName,
                     false, created, created);
    InsertedUserIsFound(rows, user);
  }
}

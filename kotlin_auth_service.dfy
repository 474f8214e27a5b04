/** Sign-in and session tokens of the Kotlin port
    (`backend/src/main/kotlin/com/booktracker/service/AuthService.kt`).
    bcrypt is the symbolic hash of `Credentials`; a token is kept as the
    value it encodes: its subject text, its expiry in whole seconds, and
    the HMAC-SHA256 key it was signed with. Its compact text form is not
    modelled. */
module KotlinAuthService {
  import opened Common
  import opened Text
  import opened Credentials
  import opened KotlinUserService

  /** The fallback signing secret. */
  const DefaultSecret: string := "default-secret-change-me"

  /** `System.getenv("JWT_SECRET") ?: ...`: only an unset variable falls
      back; a variable set to the empty text gives the empty key. */
  function JwtSecret(env: Option<string>): (s: string)
    ensures env.Some? ==> s == env.value
    ensures env.None? ==> s == DefaultSecret
  {
    match env
    case Some(v) => v
    case None => DefaultSecret
  }

  /** A signed token: `sub`, `exp` (seconds) and the signing key. */
  datatype Token = Token(subject: string, expiresAt: int, key: string)

  /** java-jwt's HMAC signing builds a `SecretKeySpec` from the secret's
      bytes, which refuses an empty key with this message; the exception is
      not caught on the way out of `sign`. */
  const EmptyKeyMessage: string := "Empty key"

  /** `generateToken`: the subject is the user id written in decimal, and
      the token expires 24 hours after it is issued, in whole seconds.
      Signing with the empty secret throws. */
  function GenerateToken(userId: nat, secret: string, now: int): (t: Outcome<Token>)
    ensures t.Threw? <==> secret == ""
    ensures t.Returned? ==> t.value.subject == FormatInt(userId) && t.value.key == secret
    ensures t.Returned? ==> t.value.expiresAt * SecondMs <= now + DayMs < (t.value.expiresAt + 1) * SecondMs
  {
    if secret == "" then Threw else Returned(Token(FormatInt(userId), (now + DayMs) / SecondMs, secret))
  }

  /** What `verifyToken` ends with: the subject as a number, null (any
      verification failure), or a subject that is not a number, for which
      `toLong` throws past the `catch`. */
  datatype Verified = Subject(id: int) | Rejected | SubjectNotNumeric

  /** `verifyToken`. `parsed` is the token text after decoding (`None`
      when it is not a token at all). A token is accepted when it was signed
      with this key and the current second is not after its expiry. Under
      the empty secret no signature can be checked: the library turns the
      key's refusal into a verification failure, so every token is null. */
  function VerifyToken(parsed: Option<Token>, secret: string, now: int): (r: Verified)
    ensures r.Subject? <==> (parsed.Some? && secret != "" && parsed.value.key == secret
                             && now / SecondMs <= parsed.value.expiresAt && ParseInt64(parsed.value.subject).Some?)
    ensures r.Subject? ==> r.id == ParseInt64(parsed.value.subject).value
    ensures parsed.None? || secret == "" || parsed.value.key != secret ==> r == Rejected
  {
    match parsed
    case None => Rejected
    case Some(t) =>
      if secret == "" || t.key != secret || now / SecondMs > t.expiresAt then Rejected
      else match ParseInt64(t.subject)
        case None => SubjectNotNumeric
        case Some(id) => Subject(id)
  }

  /** A generated token verifies to its user id from the moment it is
      issued until 24 hours later, and is refused from the second after. */
  lemma GeneratedTokenVerifies(userId: nat, secret: string, issued: int, now: int)
    requires userId <= MaxInt64
    requires GenerateToken(userId, secret, issued).Returned?
    ensures issued <= now <= issued + DayMs ==>
      VerifyToken(Some(GenerateToken(userId, secret, issued).value), secret, now) == Subject(userId)
    ensures now >= issued + DayMs + SecondMs ==>
      VerifyToken(Some(GenerateToken(userId, secret, issued).value), secret, now) == Rejected
  {
    ParseFormatInt(userId);
  }

  datatype UserResponse = UserResponse(id: nat, email: string, firstName: string, lastName: string, isAdmin: bool,
                                       createdAt: string)

  /** The public description of a user: no password hash. */
  function UserResponseOf(u: User): (r: UserResponse)
    ensures r.id == u.id && r.email == u.email && r.isAdmin == u.isAdmin && r.createdAt == u.createdAt
  {
    UserResponse(u.id, u.email, u.firstName, u.lastName, u.isAdmin, u.createdAt)
  }

  datatype LoginRequest = LoginRequest(email: string, password: string)

  datatype LoginResponse = LoginResponse(token: Token, user: UserResponse)

  /** `login`: null when no single user has the email or the password does
      not verify; otherwise a token for the user and their description. The
      user is looked up and the password checked before anything is signed,
      so only valid credentials reach the throw of an empty secret. */
  function Login(rows: map<nat, User>, request: LoginRequest, secret: string, now: int)
    : (r: Outcome<Option<LoginResponse>>)
    ensures var found := GetUserByEmail(rows, request.email);
      var valid := found.Some? && VerifyPassword(request.password, found.value.passwordHash);
      && (r.Threw? <==> valid && secret == "")
      && (r == Returned(None) <==> !valid)
      && (r.Returned? && r.value.Some? <==> valid && secret != "")
    ensures r.Returned? && r.value.Some? ==>
      var u := GetUserByEmail(rows, request.email).value;
      && GenerateToken(u.id, secret, now).Returned?
      && r.value.value == LoginResponse(GenerateToken(u.id, secret, now).value, UserResponseOf(u))
  {
    match GetUserByEmail(rows, request.email)
    case None => Returned(None)
    case Some(user) =>
      if !VerifyPassword(request.password, user.passwordHash) then Returned(None)
      else match GenerateToken(user.id, secret, now)
        case Threw => Threw
        case Returned(token) => Returned(Some(LoginResponse(token, UserResponseOf(user))))
  }

  /** An unknown email and a wrong password give the same null, so a
      caller cannot tell them apart, whatever the secret. */
  lemma LoginFailuresAlike(rows: map<nat, User>, unknown: string, known: string, guess: string, password: string,
                           secret: string, now: int)
    requires UniqueEmails(rows)
    requires !EmailHeldByOther(rows, unknown, None)
    requires exists k :: k in rows && rows[k].email == known && !VerifyPassword(guess, rows[k].passwordHash)
    ensures Login(rows, LoginRequest(unknown, password), secret, now) == Returned(None)
    ensures Login(rows, LoginRequest(known, guess), secret, now) == Returned(None)
  {
    var k :| k in rows && rows[k].email == known && !VerifyPassword(guess, rows[k].passwordHash);
    assert GetUserByEmail(rows, known).value == rows[k] by {
      assert EmailHeldByOther(rows, known, None);
    }
  }

  /** The token a login hands out verifies straight away to the id of the
      user it describes. */
  lemma LoginTokenVerifies(rows: map<nat, User>, request: LoginRequest, secret: string, now: int)
    requires Login(rows, request, secret, now).Returned? && Login(rows, request, secret, now).value.Some?
    requires Login(rows, request, secret, now).value.value.user.id <= MaxInt64
    ensures var resp := Login(rows, request, secret, now).value.value;
      VerifyToken(Some(resp.token), secret, now) == Subject(resp.user.id)
  {
    var u := GetUserByEmail(rows, request.email).value;
    GeneratedTokenVerifies(u.id, secret, now, now);
  }
}

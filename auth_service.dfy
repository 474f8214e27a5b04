/** Sign-in and session tokens of `backend/services/auth.go`. bcrypt and
    the JWT library are kept symbolic: a token is a value carrying its
    signing method, its claims and a signature term that records the key
    and the claims it was computed over; the compact text form is not
    modelled. */
module AuthService {
  import opened Common
  import opened Records
  import opened Store
  import opened Credentials

  /** The fallback signing secret. */
  const DevSecret: string := "dev-secret-key-change-in-production"

  /** `getJWTSecret`: the `JWT_SECRET` environment value, or the fallback
      when it is unset (an unset variable reads as ""). The key is never
      empty. */
  function JwtSecret(env: string): (s: string)
    ensures s != ""
    ensures env != "" ==> s == env
    ensures env == "" ==> s == DevSecret
  {
    if env == "" then DevSecret else env
  }

  /** `jwt.NewNumericDate`: an instant truncated to whole seconds. */
  function NumericDate(ms: int): int
  {
    ms / SecondMs
  }

  /** The claims of a session token; the two dates are in seconds. */
  datatype Claims = Claims(userId: nat, email: string, issuedAt: int, expiresAt: int)

  datatype SigningMethod = HS256 | HS384 | HS512 | RS256 | ES256 | EdDSA | Unsigned

  /** The `*jwt.SigningMethodHMAC` family. */
  predicate IsHmac(m: SigningMethod)
  {
    m == HS256 || m == HS384 || m == HS512
  }

  /** A signature, as the term of the signing method, key and claims it was made
      from. */
  datatype Signature = Sig(alg: SigningMethod, key: string, claims: Claims)

  datatype Jwt = Jwt(alg: SigningMethod, claims: Claims, signature: Signature)

  /** `NewWithClaims(...).SignedString(key)` */
  function Sign(alg: SigningMethod, claims: Claims, key: string): Jwt
  {
    Jwt(alg, claims, Sig(alg, key, claims))
  }

  /** The claims both generators build: issued now, expiring 24 hours
      later, both truncated to seconds. */
  function SessionClaims(userId: nat, email: string, now: int): (c: Claims)
    ensures c.userId == userId && c.email == email
    ensures c.issuedAt * SecondMs <= now < (c.issuedAt + 1) * SecondMs
    ensures c.expiresAt == c.issuedAt + 24 * 60 * 60
  {
    Claims(userId, email, NumericDate(now), NumericDate(now + 24 * HourMs))
  }

  /** `GenerateToken(user)`: an HS256 token for the user's id and email.
      Signing with an HMAC key never fails, so no error is modelled. */
  function GenerateToken(user: User, secret: string, now: int): (t: Jwt)
    ensures t.alg == HS256 && t.claims == SessionClaims(user.id, user.email, now)
  {
    Sign(HS256, SessionClaims(user.id, user.email, now), secret)
  }

  /** `GenerateJWT(userID, email)` */
  function GenerateJWT(userId: nat, email: string, secret: string, now: int): (t: Jwt)
    ensures t.alg == HS256 && t.claims == SessionClaims(userId, email, now)
  {
    Sign(HS256, SessionClaims(userId, email, now), secret)
  }

  /** The two generators build the same token for the same user. */
  lemma GenerateJWTIsGenerateToken(user: User, secret: string, now: int)
    ensures GenerateJWT(user.id, user.email, secret, now) == GenerateToken(user, secret, now)
  {
  }

  const TokenMalformed: string := "token is malformed"
  const UnexpectedSigningMethod: string := "unexpected signing method"
  const SignatureInvalid: string := "token signature is invalid"
  const TokenExpired: string := "token is expired"

  /** `ValidateToken`. `parsed` is the token text after decoding (`None`
      when it is not a token at all). A token is accepted only when it uses
      an HMAC method, its signature was made with this secret over these
      claims, and the current instant is strictly before its expiry. */
  function ValidateToken(parsed: Option<Jwt>, secret: string, now: int): (r: Result<Claims>)
    ensures r.Ok? <==> (parsed.Some? && IsHmac(parsed.value.alg)
                        && parsed.value.signature == Sig(parsed.value.alg, secret, parsed.value.claims)
                        && now < parsed.value.claims.expiresAt * SecondMs)
    ensures r.Ok? ==> r.value == parsed.value.claims
    ensures parsed.Some? && !IsHmac(parsed.value.alg) ==> r == Err(UnexpectedSigningMethod)
  {
    match parsed
    case None => Err(TokenMalformed)
    case Some(t) =>
      if !IsHmac(t.alg) then Err(UnexpectedSigningMethod)
      else if t.signature != Sig(t.alg, secret, t.claims) then Err(SignatureInvalid)
      else if !(now < t.claims.expiresAt * SecondMs) then Err(TokenExpired)
      else Ok(t.claims)
  }

  /** A generated token validates to its user's id and email from the
      moment it is issued until 24 hours later, less the truncation of
      the issue instant to whole seconds; from 24 hours on it is refused. */
  lemma GeneratedTokenValidates(user: User, secret: string, issued: int, now: int)
    ensures issued <= now && now + SecondMs <= issued + DayMs ==>
      ValidateToken(Some(GenerateToken(user, secret, issued)), secret, now)
        == Ok(SessionClaims(user.id, user.email, issued))
    ensures now >= issued + DayMs ==> ValidateToken(Some(GenerateToken(user, secret, issued)), secret, now).Err?
  {
  }

  /** A token signed under another key, or with a method outside the HMAC
      family, is refused whatever its claims say. */
  lemma ForeignTokensRefused(t: Jwt, secret: string, now: int)
    requires t.signature.key != secret || !IsHmac(t.alg)
    ensures ValidateToken(Some(t), secret, now).Err?
  {
  }

  const InvalidCredentials: string := "invalid credentials"

  /** `AuthenticateUser`: the user holding the email, when the password
      verifies against the stored hash. Every refusal carries the same
      message. */
  function AuthenticateUser(users: map<nat, User>, email: string, password: string): (r: Result<User>)
    requires UniqueEmails(users)
    ensures r.Ok? <==> exists k :: k in users && users[k].email == email
                                   && VerifyPassword(password, users[k].passwordHash)
    ensures r.Ok? ==> r.value in users.Values && r.value.email == email
                      && VerifyPassword(password, r.value.passwordHash)
    ensures r.Err? ==> r == Err(InvalidCredentials)
  {
    match UserByEmail(users, email)
    case None => Err(InvalidCredentials)
    case Some(user) =>
      if !VerifyPassword(password, user.passwordHash) then Err(InvalidCredentials) else Ok(user)
  }

  /** A caller cannot tell an unknown email from a wrong password: both
      answers are the same value. */
  lemma UnknownEmailLooksLikeWrongPassword(users: map<nat, User>, unknown: string, known: string,
                                           guess: string, password: string)
    requires UniqueEmails(users)
    requires !EmailTaken(users, unknown)
    requires exists k :: k in users && users[k].email == known && !VerifyPassword(guess, users[k].passwordHash)
    ensures AuthenticateUser(users, unknown, password) == AuthenticateUser(users, known, guess)
  {
  }

  datatype LoginResponse = LoginResponse(token: Jwt, user: UserResponse)

  /** `Login`: no token without authentication; on success the response
      describes the authenticated user and carries a token for them. */
  function Login(users: map<nat, User>, req: LoginRequest, secret: string, now: int): (r: Result<LoginResponse>)
    requires UniqueEmails(users)
    ensures r.Ok? <==> AuthenticateUser(users, req.email, req.password).Ok?
    ensures r.Err? ==> r == Err(InvalidCredentials)
    ensures r.Ok? ==>
      var u := AuthenticateUser(users, req.email, req.password).value;
      r.value.user == UserResponseOf(u) && r.value.token == GenerateToken(u, secret, now)
  {
    match AuthenticateUser(users, req.email, req.password)
    case Err(e) => Err(e)
    case Ok(user) => Ok(LoginResponse(GenerateToken(user, secret, now), UserResponseOf(user)))
  }

  /** The token a successful login hands out names the user who logged in
      and is accepted by `ValidateToken` straight away. */
  lemma LoginTokenNamesUser(users: map<nat, User>, req: LoginRequest, secret: string, now: int)
    requires UniqueEmails(users) && UsersKeyed(users)
    requires Login(users, req, secret, now).Ok?
    ensures var resp := Login(users, req, secret, now).value;
      && ValidateToken(Some(resp.token), secret, now).Ok?
      && ValidateToken(Some(resp.token), secret, now).value.userId == resp.user.id
      && resp.user.id in users && resp.user.email == req.email
  {
    var u := AuthenticateUser(users, req.email, req.password).value;
    var k :| k in users && users[k] == u;
    GeneratedTokenValidates(u, secret, now, now);
  }
}

/** The bearer-token gate of `backend/middleware/auth.go`, the admin gate
    behind it, and the helper that reads the caller's id back out of the
    request context. The request context is a value: what the gate puts
    into it is part of its answer. */
module AuthMiddleware {
  import opened Common
  import opened Records
  import opened Store
  import AuthService
  import UserService

  /** What the handlers can find in the request context. */
  datatype RequestContext = RequestContext(user: Option<User>, userId: Option<nat>)

  const EmptyContext: RequestContext := RequestContext(None, None)

  /** A gate either stops the request with a status and message, or lets
      it continue with the context it leaves behind. */
  datatype Outcome = Abort(status: int, message: string) | Next(ctx: RequestContext)

  const HeaderRequired: string := "Authorization header required"
  const BadHeaderFormat: string := "Invalid authorization header format"
  const InvalidToken: string := "Invalid token"
  const UserNotFound: string := "User not found"
  const NoUserInContext: string := "User not found in context"
  const AdminRequired: string := "Admin access required"

  /** Position of the first space, or `|s|` when there is none. */
  function FirstSpace(s: string): (i: nat)
    ensures i <= |s| && (i < |s| ==> s[i] == ' ')
    ensures forall j :: 0 <= j < i ==> s[j] != ' '
  {
    if s == [] then 0
    else if s[0] == ' ' then 0
    else 1 + FirstSpace(s[1..])
  }

  /** `strings.SplitN(s, " ", 2)`: the text before the first space and
      everything after it, or the whole text when it has no space. */
  function SplitAtFirstSpace(s: string): (parts: seq<string>)
    ensures 1 <= |parts| <= 2
    ensures |parts| == 1 <==> ' ' !in s
    ensures |parts| == 1 ==> parts[0] == s
    ensures |parts| == 2 ==> parts[0] + " " + parts[1] == s && ' ' !in parts[0]
  {
    var i := FirstSpace(s);
    if i == |s| then
      assert ' ' !in s by {
        forall j | 0 <= j < |s| ensures s[j] != ' ' { }
      }
      [s]
    else
      assert s[..i] + " " + s[i + 1..] == s by {
        assert s == s[..i] + [s[i]] + s[i + 1..];
      }
      assert ' ' !in s[..i] by {
        forall j | 0 <= j < i ensures s[..i][j] != ' ' { }
      }
      [s[..i], s[i + 1..]]
  }

  /** Whatever follows `"Bearer "`, spaces included, is taken as the
      token. */
  lemma BearerHeaderSplits(token: string)
    ensures SplitAtFirstSpace("Bearer " + token) == ["Bearer", token]
  {
    var s := "Bearer " + token;
    assert s[6] == ' ';
    assert forall j :: 0 <= j < 6 ==> s[j] != ' ';
    assert s[..6] == "Bearer" && s[7..] == token;
  }

  /** The token text of a well-formed header. */
  function BearerToken(header: string): (r: Option<string>)
    ensures r.Some? <==> |SplitAtFirstSpace(header)| == 2 && SplitAtFirstSpace(header)[0] == "Bearer"
    ensures r.Some? ==> header == "Bearer " + r.value
  {
    var parts := SplitAtFirstSpace(header);
    if |parts| != 2 || parts[0] != "Bearer" then None else Some(parts[1])
  }

  /** `AuthMiddleware`: the header must be present, read `Bearer <token>`,
      the token must validate, and the user it names must still exist. Each
      refusal is a 401 with its own message; only a request passing all
      four continues, with the user and their id in the context. `decode`
      stands for the library's reading of the token text. */
  function Authenticate(users: map<nat, User>, header: string, decode: string -> Option<AuthService.Jwt>,
                        secret: string, now: int): (r: Outcome)
    ensures r.Abort? ==> r.status == StatusUnauthorized
    ensures header == "" ==> r == Abort(StatusUnauthorized, HeaderRequired)
    ensures header != "" && BearerToken(header).None? ==> r == Abort(StatusUnauthorized, BadHeaderFormat)
    ensures r.Next? <==> (BearerToken(header).Some?
                          && var claims := AuthService.ValidateToken(decode(BearerToken(header).value), secret, now);
                             claims.Ok? && claims.value.userId in users)
    ensures r.Next? ==>
      var claims := AuthService.ValidateToken(decode(BearerToken(header).value), secret, now).value;
      r.ctx == RequestContext(Some(users[claims.userId]), Some(users[claims.userId].id))
  {
    if header == "" then Abort(StatusUnauthorized, HeaderRequired)
    else match BearerToken(header)
      case None => Abort(StatusUnauthorized, BadHeaderFormat)
      case Some(token) =>
        match AuthService.ValidateToken(decode(token), secret, now)
        case Err(_) => Abort(StatusUnauthorized, InvalidToken)
        case Ok(claims) =>
          match UserService.GetUserByID(users, claims.userId)
          case Err(_) => Abort(StatusUnauthorized, UserNotFound)
          case Ok(user) => Next(RequestContext(Some(user), Some(user.id)))
  }

  /** A freshly issued token presented as `Bearer <token>` lets its user
      through, and the context then names that user. */
  lemma IssuedTokenPasses(users: map<nat, User>, user: User, token: string,
                          decode: string -> Option<AuthService.Jwt>, secret: string, issued: int, now: int)
    requires UsersKeyed(users) && user.id in users && users[user.id] == user
    requires decode(token) == Some(AuthService.GenerateToken(user, secret, issued))
    requires issued <= now && now + SecondMs <= issued + DayMs
    ensures Authenticate(users, "Bearer " + token, decode, secret, now)
      == Next(RequestContext(Some(user), Some(user.id)))
    ensures GetCurrentUserID(Authenticate(users, "Bearer " + token, decode, secret, now).ctx) == (user.id, true)
  {
    BearerHeaderSplits(token);
    AuthService.GeneratedTokenValidates(user, secret, issued, now);
  }

  /** A token whose user has been deleted is refused even while it is
      still valid. */
  lemma DeletedUserRefused(users: map<nat, User>, user: User, token: string,
                           decode: string -> Option<AuthService.Jwt>, secret: string, issued: int, now: int)
    requires user.id !in users
    requires decode(token) == Some(AuthService.GenerateToken(user, secret, issued))
    requires issued <= now && now + SecondMs <= issued + DayMs
    ensures Authenticate(users, "Bearer " + token, decode, secret, now) == Abort(StatusUnauthorized, UserNotFound)
  {
    BearerHeaderSplits(token);
    AuthService.GeneratedTokenValidates(user, secret, issued, now);
  }

  /** `AdminMiddleware`, run after the bearer gate: 401 with no user in the
      context, 403 for a user who is not an admin. */
  function RequireAdmin(ctx: RequestContext): (r: Outcome)
    ensures r.Next? <==> ctx.user.Some? && ctx.user.value.isAdmin
    ensures ctx.user.None? ==> r == Abort(StatusUnauthorized, NoUserInContext)
    ensures ctx.user.Some? && !ctx.user.value.isAdmin ==> r == Abort(StatusForbidden, AdminRequired)
    ensures r.Next? ==> r.ctx == ctx
  {
    match ctx.user
    case None => Abort(StatusUnauthorized, NoUserInContext)
    case Some(u) => if !u.isAdmin then Abort(StatusForbidden, AdminRequired) else Next(ctx)
  }

  /** `GetCurrentUser`: the user the gate stored, if any. */
  function GetCurrentUser(ctx: RequestContext): Option<User>
  {
    ctx.user
  }

  /** `GetCurrentUserID`: `(0, false)` when no id was stored. */
  function GetCurrentUserID(ctx: RequestContext): (r: (nat, bool))
    ensures r.1 <==> ctx.userId.Some?
    ensures r.1 ==> r.0 == ctx.userId.value
    ensures !r.1 ==> r.0 == 0
  {
    match ctx.userId
    case None => (0, false)
    case Some(id) => (id, true)
  }

  /** Behind the bearer gate the context always yields the stored user's
      id, and the admin gate then decides by that user's flag alone. */
  lemma GatesCompose(users: map<nat, User>, header: string, decode: string -> Option<AuthService.Jwt>,
                     secret: string, now: int)
    requires UsersKeyed(users)
    requires Authenticate(users, header, decode, secret, now).Next?
    ensures var ctx := Authenticate(users, header, decode, secret, now).ctx;
      && ctx.user.Some? && ctx.user.value in users.Values
      && GetCurrentUserID(ctx) == (ctx.user.value.id, true)
      && (RequireAdmin(ctx).Next? <==> ctx.user.value.isAdmin)
  {
  }
}

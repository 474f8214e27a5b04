/** The rows of the book-tracker database and the request and response
    shapes around them. One record per table holds the columns of every
    variant: the `backend-go` child has a single `name` where the `backend`
    child has `firstName` and `lastName`, and the `backend-go` book has a
    `title` and `author` where the `backend` book refers to a shared
    catalogue entry or carries custom fields. */
module Records {
  import opened Common
  import opened Credentials

  datatype User = User(
    id: nat,
    email: string,
    passwordHash: PasswordHash,
    firstName: string,
    lastName: string,
    isAdmin: bool,
    emailVerified: bool,
    verificationToken: string,
    tokenExpiresAt: Option<int>,
    resetToken: string,
    resetExpiresAt: Option<int>,
    createdAt: int,
    updatedAt: int)

  datatype Child = Child(
    id: nat,
    name: string,
    firstName: string,
    lastName: string,
    grade: string,
    ownerId: nat,
    createdAt: int,
    updatedAt: int)

  datatype Book = Book(
    id: nat,
    title: string,
    author: string,
    dateRead: string,
    childId: nat,
    sharedBookId: Option<nat>,
    customTitle: string,
    customAuthor: string,
    customIsbn: string,
    lexileLevel: string,
    isPartial: bool,
    partialComment: string,
    createdAt: int,
    updatedAt: int)

  /** A catalogue entry that several children's reading records can share. */
  datatype SharedBook = SharedBook(
    id: nat,
    isbn: string,
    title: string,
    author: string,
    coverUrl: string,
    source: string)

  datatype Permission = Permission(
    id: nat,
    userId: nat,
    childId: nat,
    permissionType: PermType,
    createdAt: int)

  /** An invitation for an email address that has no account yet. */
  datatype Invitation = Invitation(
    id: nat,
    email: string,
    childId: nat,
    permissionType: PermType,
    invitedById: nat,
    token: string,
    expiresAt: int)

  /** One child and the level to grant on it (a bulk invitation lists
      several). */
  datatype ChildGrant = ChildGrant(childId: nat, permissionType: PermType)

  /** Registration body. The `email` rule is only checked for presence here;
      the validator's address syntax is not part of the model. */
  datatype CreateUserRequest = CreateUserRequest(
    email: string,
    password: string,
    firstName: string,
    lastName: string,
    isAdmin: bool)

  /** `required` on every text field and `min=6` (in characters) on the
      password. */
  predicate CreateUserRequestBinds(r: CreateUserRequest)
  {
    r.email != "" && |r.password| >= 6 && r.firstName != "" && r.lastName != ""
  }

  datatype UpdateUserRequest = UpdateUserRequest(
    email: string,
    firstName: string,
    lastName: string,
    isAdmin: bool)

  predicate UpdateUserRequestBinds(r: UpdateUserRequest)
  {
    r.email != "" && r.firstName != "" && r.lastName != ""
  }

  datatype LoginRequest = LoginRequest(email: string, password: string)

  predicate LoginRequestBinds(r: LoginRequest)
  {
    r.email != "" && r.password != ""
  }

  /** Body of an invitation or a permission grant: the permission type is
      bound only when it is one of the two names. */
  function BindPermissionType(email: string, permissionType: string): (r: Option<PermType>)
    ensures r.Some? <==> email != "" && (permissionType == "VIEW" || permissionType == "EDIT")
    ensures r.Some? ==> PermTypeName(r.value) == permissionType
  {
    if email == "" then None else ParsePermType(permissionType)
  }

  /** What the API says about a user: no password hash and no token. */
  datatype UserResponse = UserResponse(
    id: nat,
    email: string,
    firstName: string,
    lastName: string,
    isAdmin: bool,
    emailVerified: bool,
    createdAt: int)

  function UserResponseOf(u: User): UserResponse
  {
    UserResponse(u.id, u.email, u.firstName, u.lastName, u.isAdmin, u.emailVerified, u.createdAt)
  }

  /** Two users that differ only in their credentials (password hash,
      verification and reset tokens and their expiry) look the same to
      every client. */
  lemma UserResponseHidesCredentials(u: User, v: User)
    requires v == u.(passwordHash := v.passwordHash, verificationToken := v.verificationToken,
                     tokenExpiresAt := v.tokenExpiresAt, resetToken := v.resetToken,
                     resetExpiresAt := v.resetExpiresAt, updatedAt := v.updatedAt)
    ensures UserResponseOf(u) == UserResponseOf(v)
  {
  }
}

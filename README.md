# book-tracker, modelled in Dafny

book-tracker is a family reading tracker. Parents register, add their
children, and record the books each child has read: a catalogue book
found by ISBN or a custom title and author, read in full or in part. A
child's owner can share the child with other accounts, at VIEW or EDIT
level. The sharing works directly for a registered email. For an email
with no account it works through an invitation token that the invitee
redeems by registering within seven days. Monthly views count and list
each child's books, and a PDF report lays a month's books out on a grid.

The same rules exist several times over in the repository: three Go
backends that have drifted apart (`api/`, `backend/`, `backend-go/`), a
Kotlin port that has only accounts and sign-in, and a React front end
that flags a custom book the child has already finished. This project
models each of them. They share one abstract database, and each variant
gets its own module where its code differs.

Conventions of the model:

- **Database.** The database is the class `Store.Db`. It holds one map per
  table (users, children, books, shared catalogue books, permissions,
  pending invitations), each keyed by primary key. A single
  autoincrement counter hands out new keys. The Kotlin users table is its
  own class, `KotlinUserService.UsersTable`.
- **Writes.** Handlers and services that write are methods over the
  store. Their `ensures` give the whole new state and the answer. Pure
  decisions are functions, and lemmas relate them.
- **Time.** Time is a parameter `now` in integer milliseconds. Go's
  `Before` and `After` become strict comparisons, exactly as each
  expiry test is written.
- **Cryptography.** bcrypt hashes and JWTs are symbolic terms: a hash
  records its salt and password, and a token records its claims and the
  key that signed it. The random bytes behind tokens are an input, where
  `None` stands for a failed read.
- **gorm reads.** gorm's `First` is the matching row with the least key.
  An unordered `Find` reads rows in key order. Joins, `DISTINCT` and
  `ORDER BY` are set comprehensions and sorted sequences.
- **Requests and answers.** A handler's answer is `Handlers.Reply`: a
  refusal with its status and message, or a status and a value. A
  request body that does not bind is `None`. The Go `append`-to-nil lists
  that serialise as JSON `null` are `Handlers.JsonList`.
- **Text.** Dates are the `YYYY-MM-DD` texts the database stores,
  compared as SQLite compares TEXT. Go string lengths count UTF-8 bytes.

## Model

| member | source | states |
|---|---|---|
| Common.ParsePermType | backend-go/models/models.go:119-123 | binding `oneof=VIEW EDIT` accepts exactly the two names, each as its own level |
| Records.BindPermissionType | backend-go/models/models.go:107-111 | an invitation body binds exactly when the email is present and the type is VIEW or EDIT |
| Records.UserResponseHidesCredentials | backend-go/models/models.go:125-134 | two users differing only in password hash and token fields give the same user response |
| Credentials.HashPassword | backend/services/auth.go:32-43 | a bcrypt hash accepts the password it was made from and no other |
| Store.UserByEmail | backend-go/models/models.go:12 | with the unique email index, the lookup finds a row exactly when one holds the email, and it is that row |
| Store.Db.NewId | backend-go/models/models.go:11 | the next primary key is positive and unused in every table, and the counter moves past it |
| ChildService.CheckChildPermission | backend-go/services/child.go:102-133 | a missing child is an error; the owner is always allowed; otherwise the answer is true exactly when a row of the requested level exists or, for VIEW, an EDIT row exists |
| ChildService.CheckChildPermissionFollowsRule | backend-go/services/child.go:102-133 | the check agrees with the stated rule (owner, or a row whose level grants the request) on every store |
| ChildService.EditImpliesView | backend-go/services/child.go:121-130 | whoever may edit a child may view it |
| ChildService.ViewRowDoesNotGrantEdit | backend-go/services/child.go:114-132 | a non-owner without an EDIT row is refused EDIT, with no error |
| ChildService.GetChildrenWithPermission | backend-go/services/child.go:51-65 | every child owned by the user or carrying any row for the user, each once in key order, and no other |
| ChildService.VisibleIffViewAllowed | backend-go/services/child.go:51-65 | a child is listed exactly when the VIEW check allows it |
| ChildService.GetChildByID | backend-go/services/child.go:28-38 | the stored child, or "child not found" exactly when the id is missing |
| ChildService.CreateChild | backend-go/services/child.go:12-25 | one new row under a fresh id with the request's name and grade and the caller as owner; nothing else changes |
| ChildService.UpdateChild | backend-go/services/child.go:68-87 | a missing id answers "child not found" and changes nothing; otherwise only name, grade and update time change |
| ChildService.DeleteChild | backend-go/services/child.go:90-99 | removes the row; "child not found" exactly when there was none |
| BackendChildService.CreateChild | backend/services/child.go:13-27 | one new row with the request's names and grade and the caller as owner |
| BackendChildService.UpdateChild | backend/services/child.go:70-90 | a missing id answers "child not found"; otherwise first name, last name and grade change and the owner stays |
| BackendChildService.AttachBookCounts | backend/services/child.go:157-172 | one entry per listed child, in order, copying its fields and adding its count for the month |
| BackendChildService.GetChildrenWithBookCounts | backend/services/child.go:139-175 | one entry per visible child in the visibility order, each with that child's book count for the month window |
| BackendChildService.CollectBookCounts | backend/services/child.go:196-206 | one (child id, count) pair per listed child, in order |
| BackendChildService.GetBookCountsForUserChildren | backend/services/child.go:178-209 | one (child id, count) pair per visible child over the same month window |
| PermissionService.UpsertKeepsOneRowPerPair | api/services/permission.go:9-28 | granting keeps at most one row per (user, child) and leaves exactly one for the granted pair |
| PermissionService.UpsertDecidesAccess | api/services/permission.go:9-28 | after granting t to a non-owner, the access check answers exactly as the rule does for a row of level t |
| PermissionService.CreatePermission | api/services/permission.go:9-28 | an existing row of the pair only changes its type; otherwise one row is inserted under a fresh id |
| PermissionService.UpsertKeepsRows | api/services/permission.go:9-28 | a grant keeps every existing row and its user and child; rows outside the pair are unchanged; at most one row changes, the pair's least, and only its type; a row is added only when the pair had none, under the counter's key |
| PermissionService.GrantAllCovers | backend-go/handlers/auth.go:286-295 | after granting a list of children, each listed child has a row for the user |
| PermissionService.GrantAllKeepsRows | backend-go/handlers/auth.go:286-295 | a row for any pair survives a list of grants |
| PermissionService.GrantEach | backend-go/handlers/auth.go:286-295 | the loop over the list leaves the table the list of grants describes |
| PermissionService.GetPermissionsByUser | api/services/permission.go:30-35 | exactly the rows with that user id, in key order |
| PermissionService.GetPermissionsByChild | api/services/permission.go:37-42 | exactly the rows with that child id, in key order |
| PermissionService.RevokeRemovesAccess | api/services/permission.go:45-48 | after revoking, a non-owner has no access to the child and every other pair keeps its rows |
| PermissionService.DeletePermission | api/services/permission.go:45-48 | every row of the pair is removed and no other row |
| PermissionService.GetPermissionByID | api/services/permission.go:50-58 | the row, or "record not found" exactly when the id is missing |
| PermissionService.DeletePermissionByID | api/services/permission.go:60-63 | only the row with that id is removed; a missing id is no error |
| PermissionCacheModule.CachedAnswer | api/services/permission_cache.go:32-40 | an entry answers exactly when it exists and now is strictly before its expiry |
| PermissionCacheModule.PermissionCache.constructor | api/services/permission_cache.go:23-29 | a new cache is empty with the given lifetime |
| PermissionCacheModule.PermissionCache.GetOrCheck | api/services/permission_cache.go:31-58 | a live entry answers without the check; otherwise the check runs and its answer is stored until now + ttl; an error stores nothing; a cache that agrees with the store keeps agreeing |
| PermissionCacheModule.PermissionCache.Clear | api/services/permission_cache.go:60-65 | the cache is empty afterwards |
| PermissionCacheModule.CacheFromContext | api/services/permission_cache.go:72-79 | the carried cache, or a new empty one with a five-minute lifetime |
| PermissionCacheModule.RevokedGrantStaysCached | api/services/permission_cache.go:36-55 | a cached true outlives the revocation of the grant until it expires |
| InvitationService.UpsertInvitationKeepsOnePerPair | api/services/invitation.go:24-68 | re-inviting keeps at most one invitation per (email, child), and the pair's row carries the new type, inviter, token and expiry |
| InvitationService.CreatePendingInvitation | api/services/invitation.go:24-68 | a failed random read writes nothing; otherwise an existing (email, child) row is rewritten or one row is added, expiring seven days after now |
| InvitationService.GetPendingInvitationByToken | api/services/invitation.go:70-81 | succeeds exactly when some row has the token and expires strictly after now, answering the least such row; otherwise "invitation not found or expired" |
| InvitationService.ExpiryBoundary | api/services/invitation.go:129-131 | a row expiring exactly now is neither redeemable nor swept; the sweep removes exactly the rows with expiry before now |
| InvitationService.DeleteExpiredInvitations | api/services/invitation.go:128-131 | the table keeps exactly the rows whose expiry is not before now |
| InvitationService.GetPendingInvitationsByChild | api/services/invitation.go:133-138 | exactly the live rows of the child, in key order |
| InvitationService.GetPendingInvitationsByToken | api/services/invitation.go:246-254 | exactly the live rows with the token, in key order |
| InvitationService.RedemptionCheck | api/services/invitation.go:84-100 | refuses an unknown or expired token, then an email other than the invitation's, then an email already registered; otherwise answers the live invitation |
| InvitationService.RegisterWithGrant | api/services/invitation.go:102-120 | the account is created as `CreateUser` would create it and, on success, the invitation's child is granted to it |
| InvitationService.ProcessInvitationRegistration | api/services/invitation.go:84-126 | nothing is written before a refusal; on success the new user holds the invited level on the child and the invitation is gone |
| InvitationService.WithBulkRows | api/services/invitation.go:157-172 | the table gains one row per listed child under consecutive new ids, all with the same token and expiry, and keeps every other row |
| InvitationService.BulkTokenFindsItsRows | api/services/invitation.go:141-181 | while live, the shared token finds exactly the rows the bulk invite wrote |
| InvitationService.InsertBulkRows | api/services/invitation.go:157-172 | the loop writes the rows `WithBulkRows` describes and advances the key counter by their number |
| InvitationService.CreateBulkPendingInvitation | api/services/invitation.go:141-181 | a failed random read writes nothing; otherwise the email's old invitations are replaced by one per listed child sharing one 64-digit token |
| InvitationService.GrantsOf | api/services/invitation.go:224-230 | the child and level of each invitation, in order |
| InvitationService.DeleteByToken | api/services/invitation.go:232-236 | exactly the rows carrying the token are removed |
| InvitationService.BulkGrantsCoverInvitations | api/services/invitation.go:224-230 | after redemption the new user holds a row on every invited child |
| InvitationService.RegisterWithGrants | api/services/invitation.go:210-230 | the account is created as `CreateUser` would create it and, on success, every listed child is granted to it in order |
| InvitationService.BulkRedemptionCheck | api/services/invitation.go:184-205 | refuses when no live row has the token, then an email other than the first row's, then an email already registered; otherwise answers the live rows |
| InvitationService.ProcessBulkInvitationRegistration | api/services/invitation.go:184-244 | nothing is written before a refusal; on success the new user holds a row for every live invitation and every row with the token is gone |
| Tokens.HexChar | api/utils/tokens.go:10-16 | each nibble becomes one lower-case hex digit |
| Tokens.HexValue | api/utils/tokens.go:10-16 | a hex digit reads back as the nibble that produces it |
| Tokens.HexValueOfChar | api/utils/tokens.go:10-16 | reading a digit back gives the nibble it was made from |
| Tokens.HexEncode | api/utils/tokens.go:10-16 | two hex digits per byte |
| Tokens.HexRoundTrip | api/utils/tokens.go:10-16 | decoding the hex text gives back the bytes |
| Tokens.HexEncodeInjective | api/utils/tokens.go:10-16 | different bytes never give the same token |
| Tokens.GenerateToken | api/utils/tokens.go:10-16 | succeeds exactly when the random read does; the token is 64 hex digits that decode to the 32 bytes read |
| Tokens.VerificationTokenLifetime | api/utils/tokens.go:18-34 | a verification token is accepted up to and including 24 hours after issue, and not after |
| UserService.NewUser | backend-go/services/user.go:14-75 | a taken email is refused, then a failed random read; otherwise the row has the next id, the request's fields, a hash of the password, a 64-digit unverified token valid for 24 hours, and is admin when requested or when it is the first user |
| UserService.NewUserKeepsInvariants | backend-go/services/user.go:14-75 | a registration keeps emails unique and tokens well formed |
| UserService.CreateUser | backend-go/services/user.go:14-75 | inserts exactly the row `NewUser` describes, or nothing on a refusal |
| UserService.GetUserByID | backend-go/services/user.go:77-88 | the row, or "user not found" exactly when the id is missing |
| UserService.GetUserByEmail | backend-go/services/user.go:90-101 | the row holding the email, or "user not found" exactly when none does |
| UserService.GetAllUsers | backend-go/services/user.go:103-111 | every user once, in key order |
| UserService.UpdatedUser | backend-go/services/user.go:114-143 | "user not found" for a missing id, "email already taken by another user" when another row holds the email; otherwise only email, names, admin flag and update time change |
| UserService.UpdatedUserKeepsEmailsUnique | backend-go/services/user.go:114-143 | an accepted update keeps emails unique |
| UserService.UpdateUser | backend-go/services/user.go:114-143 | the table changes exactly as `UpdatedUser` says, or not at all on a refusal |
| UserService.DeleteUser | backend-go/services/user.go:146-155 | removes the row; "user not found" exactly when there was none |
| UserService.VerifiedUser | backend-go/services/user.go:158-195 | verifies exactly when the least row holding the token is unverified and its token unexpired, and then that row, with the flag set and the token and expiry cleared; an already-verified least row gets "already verified", an expired one "has expired", an unknown token "invalid" (or "already verified" when a verified user has an empty token) |
| UserService.EmptyVerificationTokenNeverVerifies | backend-go/services/user.go:158-195 | the empty token never verifies anybody |
| UserService.VerificationTokenSingleUse | backend-go/services/user.go:158-195 | once a token has verified its user, it is refused afterwards |
| UserService.VerifyEmail | backend-go/services/user.go:158-195 | the table changes exactly as `VerifiedUser` says |
| UserService.GetUserByVerificationToken | backend-go/services/user.go:232-242 | a row holding the token, or "invalid verification token" exactly when none does |
| UserService.ResendVerificationEmail | backend-go/services/user.go:198-229 | an unknown email, an already verified user or a failed random read change nothing; otherwise the user gets a new 64-digit token valid for 24 hours |
| UserService.RequestPasswordReset | backend-go/services/user.go:245-272 | an unknown email or a failed random read change nothing; otherwise the user gets a new reset token valid for one hour |
| UserService.ResetUser | backend-go/services/user.go:275-307 | resets exactly when the least row holding the token has an expiry not yet passed, and then that row with a hash of the new password and the reset token and expiry cleared, every other field kept; a missing or passed expiry gets "reset token has expired", an unknown token "invalid reset token" |
| UserService.EmptyResetTokenNeverResets | backend-go/services/user.go:275-307 | the empty reset token resets nobody |
| UserService.ResetTokenLifetime | backend-go/services/user.go:245-307 | a reset token works up to and including one hour after the request, and not after |
| UserService.ResetPassword | backend-go/services/user.go:275-307 | the table changes exactly as `ResetUser` says |
| MonthWindow.IsoDateFields | backend/services/child.go:148-155 | a four-digit-year date prints in the fixed `YYYY-MM-DD` layout |
| MonthWindow.MonthStartFields | backend/services/child.go:148 | the window's start is the first day of the month in that layout |
| MonthWindow.FieldsOrder | backend/services/child.go:159-160 | fixed-layout dates compare as text exactly as (year, month, day) triples compare |
| MonthWindow.MonthWindowExact | backend/services/child.go:148-160 | for valid four-digit-year dates, the text test start <= d < end holds exactly when d is in the requested year and month, December rolling over to January |
| MonthWindow.December9999SelectsNothing | backend/services/child.go:148-160 | the window for December 9999 ends at "10000-01-01", which sorts before its start, so it selects no date |
| BookQueries.InsertByDate | backend/services/book.go:74-81 | one insertion step of the date sort adds exactly the one record |
| BookQueries.InsertByDateSorted | backend/services/book.go:74-81 | inserting into a newest-first list keeps it newest first |
| BookQueries.SortByDateDescending | backend/services/book.go:74-81 | `ORDER BY date_read DESC`: newest first, and a permutation of its input |
| BookQueries.NewestFirst | backend/services/book.go:74-81 | the rows under the given keys, each once, newest first |
| BookQueries.GetBooksByChild | backend/services/book.go:74-81 | exactly the child's records, newest first |
| BookQueries.GetBooksForUser | backend/services/book.go:84-100 | exactly the records of existing children the user owns or holds any row for, newest first |
| BookQueries.GetBooksByChildAndMonth | backend/services/book.go:153-172 | exactly the child's records dated inside the month window, newest first |
| BookQueries.CountMatchesList | backend/services/book.go:175-194 | the month count equals the length of the month list |
| BookQueries.MonthListSelectsByDate | backend/services/book.go:153-172 | a record of the child dated `YYYY-MM-DD` is listed exactly when that date is in the requested month |
| BackendBookService.CreateBook | backend/services/book.go:13-58 | stored exactly when the reading is partial, or names a shared entry the child has not read in full, or is a custom book whose title and author the child has not read in full; a request naming neither is "invalid book request", a repeat "already read"; the stored record, under the counter's key, copies the request's child, entry, date and partial details; no duplicate whole readings arise |
| BackendBookService.InsertKeepsNoDuplicates | backend/services/book.go:15-34 | adding a record that repeats no whole reading keeps the no-duplicate rule |
| BackendBookService.CreateCustomBook | backend/services/book.go:202-230 | refused with "child has already read this book" exactly when the reading is whole and the child has a whole reading of the same title and author; otherwise one custom record is added |
| BackendBookService.ApplyBookUpdate | backend/services/book.go:113-130 | date, level and partial details are replaced; title, author and ISBN change only on a custom record and only when sent non-empty; child, shared entry and creation time stay |
| BackendBookService.ApplyBookUpdateIdempotent | backend/services/book.go:113-130 | sending the same edit twice changes nothing the second time |
| BackendBookService.UpdateBook | backend/services/book.go:103-138 | "book not found" for a missing id with nothing changed; otherwise the row becomes the edit `ApplyBookUpdate` describes |
| BackendBookService.DeleteBook | backend/services/book.go:141-150 | removes the row; "book not found" exactly when there was none |
| BackendBookService.GetBookByID | backend/services/book.go:61-71 | the stored record, or "book not found" exactly when the id is missing |
| GoBookService.CreateBook | backend-go/services/book.go:13-27 | one new row with the request's title, author, date and child, and nothing else |
| GoBookService.UpdateBook | backend-go/services/book.go:72-92 | "book not found" for a missing id; otherwise title, author and date are replaced and the child stays |
| Text.DigitChar | backend/services/child.go:148 | a digit value prints as a decimal digit |
| Text.DigitValue | api/handlers/user.go:42 | a decimal digit reads back as the value that prints it |
| Text.NatToDecimal | backend/services/child.go:148 | `%d` of a natural number: digits only, with a leading zero only for zero |
| Text.DecimalRoundTrip | api/handlers/user.go:42 | reading a printed number gives the number back |
| Text.ParseUint32 | api/handlers/user.go:42 | `strconv.ParseUint(s, 10, 32)` accepts exactly the non-empty digit strings whose value fits in 32 bits, and reads them as that value |
| Text.ParseUint32Decimal | api/handlers/user.go:42 | every id up to 2^32 - 1 written as a numeral parses back to itself |
| Text.LeadingZerosValue | api/handlers/user.go:42 | leading zeros leave a digit string's value unchanged |
| Text.ParseUint32Padded | api/handlers/user.go:42 | a numeral with any number of leading zeros is read as the number it pads when that fits in 32 bits, and refused otherwise |
| Text.ParseInt64 | backend-go/handlers/book.go:438-439 | an accepted text is an optional sign and one or more digits whose signed value fits in 64 bits, and that value is the result |
| Text.ParseInt64Numeral | backend-go/handlers/book.go:438-439 | every signed numeral is read as its value, and accepted exactly when that value fits in 64 bits |
| Text.ParseFormatInt | backend-go/handlers/book.go:438-439 | every 64-bit integer printed with `%d` parses back to itself |
| Text.LexLessTotal | backend/services/child.go:159-160 | the text order of the date comparisons is a strict total order |
| Text.LexLessConcat | backend/services/child.go:159-160 | texts starting with equal-length parts compare by their first parts, then by the rest |
| Text.PadDigitsOrder | backend/services/child.go:148-155 | fixed-width numerals sort as the numbers they denote |
| Text.Format02Padded | backend/services/child.go:148 | `%02d` of a month is its two-digit numeral |
| Text.FormatIntFourDigits | backend/services/child.go:148 | `%d` of a four-digit year is its four-digit numeral |
| Text.Utf8Width | backend-go/handlers/isbn.go:42 | a character takes one to four bytes, and one exactly when it is ASCII |
| Text.ByteLength | backend-go/handlers/isbn.go:42 | Go's `len` of a text is at least its character count, and equal to it exactly when the text is ASCII |
| Text.EncodeChar | api/services/pdf_report.go:303-308 | a character encodes to as many bytes as its width, an ASCII character to its own code |
| Text.Utf8 | api/services/pdf_report.go:303-308 | the bytes of a text number its byte length |
| Text.Utf8Ascii | api/services/pdf_report.go:303-308 | the bytes of an ASCII text are its character codes |
| Handlers.ListOf | backend-go/handlers/book.go:110-123 | an append loop from a nil slice leaves `null` exactly when nothing was appended, and otherwise the appended elements |
| Handlers.PermissionGuard | backend-go/handlers/child.go:84-114 | 401 without a caller, then 400 for an id that does not parse, then 500 when the check errs (a missing child included), then 403 when it refuses; otherwise the caller's and the child's ids |
| Handlers.PermissionGuardFollowsRule | backend-go/handlers/child.go:101-114 | whoever passes the EDIT guard passes the VIEW guard, and whoever passes either owns the child or holds a granting row |
| Handlers.ParseYearMonth | backend-go/handlers/child.go:317-336 | both parameters required; both must be numbers and the month from 1 to 12; the year is not range-checked |
| Handlers.ParseYearMonthOfNumbers | backend-go/handlers/child.go:328-336 | every printed year with a month from 1 to 12 is accepted as itself; months 0 and 13 are refused |
| Handlers.CountQuery | backend-go/handlers/child.go:308-336 | 401 without a caller, then the year/month refusals with 400; otherwise the caller's id and the month |
| AuthService.JwtSecret | backend/services/auth.go:23-29 | the environment value when it is not empty, otherwise the development secret; never empty |
| AuthService.SessionClaims | backend/services/auth.go:47-54 | issued at the current second, expiring 24 hours later, naming the user's id and email |
| AuthService.GenerateToken | backend/services/auth.go:46-58 | an HS256 token over the session claims of the user |
| AuthService.GenerateJWT | backend/services/auth.go:130-142 | an HS256 token over the session claims of the id and email |
| AuthService.GenerateJWTIsGenerateToken | backend/services/auth.go:46-58 | both generators build the same token for the same user |
| AuthService.ValidateToken | backend/services/auth.go:61-78 | accepted exactly when the text decodes, the method is HMAC, the signature was made with this key over these claims and the token has not expired; then its claims are returned |
| AuthService.GeneratedTokenValidates | backend/services/auth.go:46-78 | a generated token validates to its user's claims from issue until its last whole second, and is refused from 24 hours on |
| AuthService.ForeignTokensRefused | backend/services/auth.go:61-78 | a token signed under another key or with a non-HMAC method is refused |
| AuthService.AuthenticateUser | backend/services/auth.go:81-93 | the user holding the email when the password verifies; otherwise "invalid credentials" |
| AuthService.UnknownEmailLooksLikeWrongPassword | backend/services/auth.go:81-93 | an unknown email and a wrong password give the same error |
| AuthService.Login | backend/services/auth.go:96-127 | no token without authentication; on success a token for the user and the user's public fields |
| AuthService.LoginTokenNamesUser | backend/services/auth.go:96-127 | the token a login hands out validates to the id and email of the user who logged in |
| AuthMiddleware.FirstSpace | backend/middleware/auth.go:25 | the position of the first space, or the length when there is none |
| AuthMiddleware.SplitAtFirstSpace | backend/middleware/auth.go:25 | `SplitN(s, " ", 2)`: one part exactly when there is no space; otherwise the two parts rejoin to the input and the first has no space |
| AuthMiddleware.BearerHeaderSplits | backend/middleware/auth.go:25-34 | whatever follows "Bearer ", spaces included, is the token text |
| AuthMiddleware.BearerToken | backend/middleware/auth.go:25-34 | a token exactly when the header splits into two parts whose first is "Bearer", and the header is then "Bearer " plus the token |
| AuthMiddleware.Authenticate | backend/middleware/auth.go:13-59 | every refusal is 401: a missing header, a malformed header, an invalid token, then a user who no longer exists; otherwise the context holds the token's user and id |
| AuthMiddleware.IssuedTokenPasses | backend/middleware/auth.go:13-59 | a freshly issued token presented as `Bearer <token>` lets its existing user through with their id |
| AuthMiddleware.DeletedUserRefused | backend/middleware/auth.go:44-52 | a valid token whose user was deleted is refused with 401 |
| AuthMiddleware.RequireAdmin | backend/middleware/auth.go:62-84 | 401 with no user in the context, 403 for a non-admin, otherwise the request continues unchanged |
| AuthMiddleware.GetCurrentUserID | backend/middleware/auth.go:102-110 | `(id, true)` when an id was stored, otherwise `(0, false)` |
| AuthMiddleware.GatesCompose | backend/middleware/auth.go:13-110 | behind the bearer gate the context yields the stored user's id, and the admin gate passes exactly for an admin |
| GoChildHandlers.GetChildByID | backend-go/handlers/child.go:83-133 | answered exactly when the VIEW guard passes, refused with the guard's status otherwise; the answer describes the requested child |
| GoChildHandlers.UpdateChild | backend-go/handlers/child.go:136-194 | EDIT is checked before the body is read; nothing changes on a refusal; otherwise only the name and grade change and the answer describes the updated child |
| GoChildHandlers.DeleteChild | backend-go/handlers/child.go:197-240 | the owner-only guard decides; the row goes only when it passes |
| GoChildHandlers.InviteUserTarget | backend-go/handlers/child.go:243-305 | the same guards as the other backend, then an email without an account is refused with 400 asking the person to register first; otherwise the existing user is the target |
| GoChildHandlers.InviteGuardsComeFirst | backend-go/handlers/child.go:268-284 | a missing child is refused with 404 and a non-owner with 403 before the email is looked up |
| GoChildHandlers.InviteUser | backend-go/handlers/child.go:243-305 | only an accepted invitation writes, and it writes one grant for the existing user and nothing else |
| BackendChildHandlers.GetChildByID | backend/handlers/child.go:85-136 | answered exactly when the VIEW guard passes; the answer describes the requested child with both names |
| BackendChildHandlers.UpdateChild | backend/handlers/child.go:139-198 | EDIT is checked before the body is read; nothing changes on a refusal; otherwise only names and grade change |
| BackendChildHandlers.DeleteChildGuard | backend/handlers/child.go:201-244 | 401 without a caller, 400 for a bad id, 404 for a missing child, 403 for anyone but the owner; otherwise 204 |
| BackendChildHandlers.DeleteChild | backend/handlers/child.go:201-244 | the row goes exactly when the guard passes, and nothing else changes |
| BackendChildHandlers.EditGranteeCannotDelete | backend/handlers/child.go:226-232 | holding EDIT on a child is not enough to delete it |
| BackendChildHandlers.BindInvite | backend-go/models/models.go:107-111 | the body binds exactly when it is present with an email and a VIEW or EDIT type |
| BackendChildHandlers.InviteUserStep | backend/handlers/child.go:247-350 | in the handler's order: caller, id, body, child, ownership; then an unknown email leads to a pending invitation, a user without VIEW to a grant, and a user with VIEW (the caller included) to a 400 |
| BackendChildHandlers.ReinviteRefused | backend/handlers/child.go:322-338 | inviting oneself, or anyone who already holds a row on the child, is refused with 400 |
| BackendChildHandlers.PendingInviteReply | backend/handlers/child.go:293-318 | after a pending invitation is written, 200 exactly when the inviter exists and the mail went out, otherwise 500 |
| BackendChildHandlers.InviteUser | backend/handlers/child.go:247-350 | the store changes exactly as the decision says: a pending invitation, a grant, or nothing |
| BackendChildHandlers.GetChildrenWithBookCounts | backend/handlers/child.go:353-392 | past the count checks, one entry per visible child with its book count for the month, answered as JSON `null` when no child is visible |
| BackendChildHandlers.GetBookCountsForChildren | backend/handlers/child.go:395-434 | past the same checks, one (child id, count) pair per visible child in order, the count being that child's month count; JSON `null` when no child is visible |
| BackendPermissionHandlers.ListingExactly | backend/handlers/permission.go:56-74 | an entry is listed exactly when it describes a row whose user exists; rows of missing users are skipped |
| BackendPermissionHandlers.BuildListing | backend/handlers/permission.go:56-74 | the append loop builds exactly the listing |
| BackendPermissionHandlers.GetPermissionsByChild | backend/handlers/permission.go:14-77 | EDIT on the child is required; then every grant on the child whose user exists is listed, `null` when there is none, and nothing changes |
| BackendPermissionHandlers.ListedGrantsOfChild | backend/handlers/permission.go:46-74 | the listing of a child's rows holds exactly that child's grants whose users exist |
| BackendPermissionHandlers.DeletePermissionGuard | backend/handlers/permission.go:80-131 | 401 without a caller, 400 for a bad id, 404 for a missing row, then EDIT on the row's child (500 when the check errs, 403 when it refuses); otherwise 204 |
| BackendPermissionHandlers.DeletePermissionByID | backend/handlers/permission.go:80-131 | the row goes exactly when the guard passes, and nothing else changes |
| BackendPermissionHandlers.EditorMayRevoke | backend/handlers/permission.go:107-120 | any editor of a child may revoke any grant on it, other editors' grants included |
| BackendPermissionHandlers.OrphanGrantCannotBeRevoked | backend/handlers/permission.go:107-113 | a grant whose child was deleted can no longer be revoked: the check errs with 500 |
| ApiBookHandlers.Preloaded | backend/services/book.go:74-76 | a record comes with its catalogue entry exactly when it names one that exists, and it is that entry |
| ApiBookHandlers.BookToResponse | api/handlers/book.go:548-579 | the record's own fields are always copied; the response is a catalogue book exactly when the record names an entry and the entry is loaded, with the entry's ISBN, title, author and cover; otherwise it is custom, with the record's custom fields and no catalogue id |
| ApiBookHandlers.ResponsesOf | api/handlers/book.go:504-545 | one response per record, in the same order |
| ApiBookHandlers.ConvertBooksToResponses | api/handlers/book.go:504-545 | the buffer filled position by position is exactly the record-by-record conversion, and one record gives what the single conversion gives |
| ApiBookHandlers.CreatedSharedRecordAnsweredAsCustom | api/handlers/book.go:46-56 | a record just created is answered without its catalogue entry loaded, so a catalogue record comes back marked custom with empty title, author and ISBN |
| ApiBookHandlers.AccessCheck | api/handlers/book.go:31-44 | passes exactly when the child permission check says yes; a missing child is a 500 carrying the lookup error, a no is a 403 |
| ApiBookHandlers.BookGuard | api/handlers/book.go:123-159 | answered with the record exactly when there is a caller, the id parses, the record exists and the caller holds the level on its child; 401, 400 and 404 in that order before the permission check |
| ApiBookHandlers.GetBookByID | api/handlers/book.go:123-167 | the VIEW guard's refusal is passed on; otherwise 200 with the record converted together with its catalogue entry |
| ApiBookHandlers.CreateChecked | api/handlers/book.go:31-56 | a failed EDIT check is answered as the check says with nothing stored; past it, a request the service accepts is answered 201 with exactly one new record, the service's, and one it refuses is the 500 "Failed to create book: " with the service's message |
| ApiBookHandlers.CreateBook | api/handlers/book.go:14-57 | 401 without a caller, 400 without a body, nothing stored on any refusal; with EDIT on the body's child and a request the service accepts the answer is 201; an answer means EDIT was held and the service's record for the body is the one new row |
| ApiBookHandlers.CreateBookForChild | api/handlers/book.go:287-342 | the path's child replaces the body's before the check, so the new record, the service's record for the overridden body, always belongs to the child the caller was checked against; with EDIT and an accepted request it is answered |
| ApiBookHandlers.CreateCustomBookForChild | api/handlers/book.go:582-636 | the same override and EDIT check; past it, answered exactly unless the reading is whole and the child has a whole reading of the same title and author; the one new row is the custom record for the path's child |
| ApiBookHandlers.UpdateBook | api/handlers/book.go:170-230 | the EDIT guard (404 before the permission check) and then the body decide; on a refusal nothing changes, otherwise only that record is replaced by its update and answered 200 |
| ApiBookHandlers.DeleteBook | api/handlers/book.go:233-284 | the EDIT guard decides; the record is removed, and only it, exactly when the guard passes |
| ApiBookHandlers.GetBooks | api/handlers/book.go:60-120 | without a child query, the records of every child the caller may see; with one, the VIEW guard on that child and then its records |
| ApiBookHandlers.ChildBooksQueryOf | api/handlers/book.go:379-415 | the month filter applies only when both year and month are given and then must parse; count_only counts only within a month |
| ApiBookHandlers.GetBooksForChild | api/handlers/book.go:345-426 | 401 and 400 before the cached VIEW check; the cache gains at most the checked entry and keeps agreeing with the store; with an agreeing cache, a lookup error is 500, no VIEW is 403, a bad month is 400, and the answer comes exactly with VIEW and a valid query; the answer is the child's records, a month's records or a month's count as the query says |
| ApiBookHandlers.ChildReportOf | api/handlers/book.go:467-492 | a report entry describes the child and lists its records (all, or one month's), with a total equal to their number |
| ApiBookHandlers.ReportMonth | api/handlers/book.go:458-466 | no month filter unless both parameters are given; then valid numbers give the filter and anything else the 400 message |
| ApiBookHandlers.ReportLoop | api/handlers/book.go:456-494 | with a valid or absent month, one entry per child in order, `null` for no children; an invalid month is refused with 400 only when there is at least one child |
| ApiBookHandlers.GetMyBooksReport | api/handlers/book.go:429-501 | the report covers exactly the children the caller may see, in order, `null` when there are none, with the month check made inside the loop |
| ApiBookHandlers.NoChildrenNoMonthCheck | api/handlers/book.go:456-466 | month 13 is an invalid filter, so a caller with no children gets an empty report where one with children gets 400 |
| ApiUserHandlers.UserResponsesOf | api/handlers/user.go:22-33 | one public description per user, in order |
| ApiUserHandlers.GetAllUsers | api/handlers/user.go:14-37 | 200 with the appended list (null when there are no users), one description per stored user, and a description is listed exactly when some stored user has it |
| ApiUserHandlers.AppendUserResponses | api/handlers/user.go:22-33 | the append loop builds exactly the descriptions of the users, in order |
| ApiUserHandlers.ListedUsers | api/handlers/user.go:14-37 | the listed descriptions are exactly those of the table's rows |
| ApiUserHandlers.GetUserByID | api/handlers/user.go:40-78 | 400 for an unparsable id, then 403 from the gate, then 404; answered exactly when the id parses, the gate passes and the user exists, with that user's description |
| ApiUserHandlers.GateOnlyStopsPresentCallers | api/handlers/user.go:51-57 | with no caller in the request any user can be read, while a non-admin caller can read themselves |
| ApiUserHandlers.RequestToWrite | api/handlers/user.go:108-119 | the service gets the requested email and names; the admin flag is the stored one for a present non-admin caller and the requested one otherwise |
| ApiUserHandlers.UpdateUser | api/handlers/user.go:81-140 | id, gate and body refusals change nothing; a non-admin caller whose row is missing gets 404 "user not found"; past those, answered exactly when `UserService.UpdatedUser` accepts the request to write, with a 400 carrying its message otherwise; an answer stores that update, so a non-admin caller never changes the admin flag |
| ApiUserHandlers.DeleteUser | api/handlers/user.go:143-162 | no gate: an unparsable id is a 400; otherwise the user is removed, 204 when it existed and 404 when it did not |
| GoBookHandlers.ResponsesOf | backend-go/handlers/book.go:135-145 | one short response per record, in the same order |
| GoBookHandlers.AppendResponses | backend-go/handlers/book.go:135-145 | the append loop gives null exactly when there are no records, and otherwise element i describes record i |
| GoBookHandlers.EmptyListIsNull | backend-go/handlers/book.go:135-147 | no records give JSON null here where the api conversion gives an empty list; one record gives a one-element list |
| GoBookHandlers.CreateChecked | backend-go/handlers/book.go:32-63 | only a passed EDIT check on the child reaches the store; then one new record is added and answered 201 with the body's fields |
| GoBookHandlers.CreateBook | backend-go/handlers/book.go:14-64 | 401, then 400 for a body that does not bind, then the EDIT check on the body's child; nothing stored on a refusal, otherwise exactly one new record described by the answer |
| GoBookHandlers.CreateBookForChild | backend-go/handlers/book.go:330-392 | the path's child replaces the body's before the EDIT check, so the record is created for the child the caller was checked against |
| GoBookHandlers.GetBookByID | backend-go/handlers/book.go:151-202 | the VIEW guard's refusal is passed on (404 before the permission check); otherwise 200 with the record's short response |
| GoBookHandlers.UpdateBook | backend-go/handlers/book.go:205-273 | 404, then EDIT, and only then the body, so a caller without EDIT gets 403 whatever they send; an answer replaces title, author and date of that record only |
| GoBookHandlers.DeleteBook | backend-go/handlers/book.go:276-327 | the EDIT guard decides; the record, and only it, is removed exactly when the guard passes |
| GoBookHandlers.GetBooks | backend-go/handlers/book.go:67-148 | without a child query, the records of every child the caller may see; with one, the VIEW guard and then that child's records; lists are null when empty |
| GoBookHandlers.GetBooksForChild | backend-go/handlers/book.go:395-486 | the VIEW guard first, then an invalid month is a 400, then the child's records, a month's records or a month's count as the query says |
| GoBookHandlers.CountIsListLength | backend-go/handlers/book.go:447-459 | the count count_only gives equals the length of the month list the same query gives without it |
| GoBookHandlers.ChildReportOf | backend-go/handlers/book.go:527-563 | an entry describes the child and its records (null when it has none), with a total equal to their number |
| GoBookHandlers.ChildEntry | backend-go/handlers/book.go:527-563 | the loop body for one child builds exactly that child's entry |
| GoBookHandlers.ReportLoop | backend-go/handlers/book.go:514-566 | the month is checked inside the loop, so an invalid month is a 400 only when there is a child; no children give null; otherwise one entry per child in order |
| GoBookHandlers.GetMyBooksReport | backend-go/handlers/book.go:489-571 | the report covers exactly the children the caller may see, in order |
| GoAuthHandlers.RegisterUser | backend-go/handlers/auth.go:20-57 | a body that does not bind is a 400 and changes nothing; the service's error is a 400 with its text and changes nothing; a taken email is always refused; on success the new user is stored and answered 201, and a failed verification email only sets the warning |
| GoAuthHandlers.RegisterUserWithInvitation | backend-go/handlers/auth.go:60-96 | a refusal changes no table; the redemption's error is a 400 with its text; a passed redemption with a random read is answered 201, describing the new user with the invited email, granting every live invitation in order and removing the token's invitations |
| GoAuthHandlers.GetInvitationDetails | backend-go/handlers/auth.go:99-124 | an empty token is refused before any lookup; otherwise answered exactly when a live invitation has the token, describing the least such row's email, child, inviter and permission |
| GoAuthHandlers.LoginUser | backend-go/handlers/auth.go:127-145 | a body that does not bind is a 400; otherwise answered exactly when authentication succeeds, and every failure is the same 401 |
| GoAuthHandlers.LoginFailuresLookAlike | backend-go/handlers/auth.go:136-141 | an unknown email and a wrong password for a known one get the very same 401 |
| GoAuthHandlers.ForgotPassword | backend-go/handlers/auth.go:148-179 | an unknown email gets the same 200 as a sent email and changes nothing; a known one gets a reset token valid for an hour, stored even when the send fails, which is then a 500 |
| GoAuthHandlers.ResetPassword | backend-go/handlers/auth.go:182-213 | the reset service's error is a 400 with its text and changes nothing; success stores the reset user and answers with a description free of credentials |
| GoAuthHandlers.OwnershipCheck | backend-go/handlers/auth.go:233-248 | passes exactly when the caller owns every listed child; a missing child is a 404 and another owner's a 403 |
| GoAuthHandlers.FirstUnownedChildDecides | backend-go/handlers/auth.go:233-248 | the refusal is decided by the first listed child the caller does not own |
| GoAuthHandlers.CheckOwnership | backend-go/handlers/auth.go:233-248 | the loop gives exactly the ownership check's answer |
| GoAuthHandlers.InviteUnregistered | backend-go/handlers/auth.go:251-284 | without random bytes a 500 and nothing written; otherwise the email's older invitations are replaced by one row per child sharing a single token, written before the inviter lookup and the email, whose failures are 500s |
| GoAuthHandlers.BulkInviteUser | backend-go/handlers/auth.go:216-300 | nothing is written unless there is a caller, a body and ownership of every listed child; a registered email is granted each child through the permission upsert; an unknown one gets invitations and no permission |
| GoAuthHandlers.GoogleCallbackGuard | backend-go/handlers/auth.go:338-361 | proceeds exactly when the state cookie is present and equals the state query and a code is given; a bad state is refused before a missing code |
| IsbnLookup.RemoveAll | backend-go/handlers/isbn.go:40 | `strings.ReplaceAll` with an empty replacement: a character is kept exactly when it occurs and is not the removed one, and nothing grows |
| IsbnLookup.RemoveAllConcat | backend-go/handlers/isbn.go:40 | removing from a concatenation removes from each part |
| IsbnLookup.RemoveAbsent | backend-go/handlers/isbn.go:40 | removing a character that does not occur changes nothing |
| IsbnLookup.Clean | backend-go/handlers/isbn.go:39-40 | the cleaned ISBN holds exactly the characters of the request other than hyphens and spaces |
| IsbnLookup.CleanIdempotent | backend-go/handlers/isbn.go:39-40 | cleaning a cleaned ISBN changes nothing |
| IsbnLookup.CleanConcat | backend-go/handlers/isbn.go:39-40 | cleaning works character by character: a hyphen or space is dropped, any other character kept |
| IsbnLookup.AuthorOf | backend-go/handlers/isbn.go:91-95 | the first listed author, or empty when none is listed |
| IsbnLookup.CoverOf | backend-go/handlers/isbn.go:97-105 | medium if present, else large, else small, else empty; empty exactly when all three are |
| IsbnLookup.Resolve | backend-go/handlers/isbn.go:30-105 | in order: 400 without a body, 400 unless the cleaned ISBN has 10 or 13 characters, 500 when Open Library cannot be reached, a not-found 400 for a non-200 answer, 500 for an undecodable one, a not-found 200 when the key is missing or untitled; found exactly when a titled entry is filed under the cleaned ISBN's key |
| IsbnLookup.FormattingIsIgnored | backend-go/handlers/isbn.go:39-48 | ISBNs that differ only in hyphens and spaces get the same answer |
| IsbnLookup.RemoveAllShrinks | backend-go/handlers/isbn.go:39-40 | removing a character never adds UTF-8 bytes |
| IsbnLookup.ShortInputRejected | backend-go/handlers/isbn.go:39-48 | every ISBN shorter than ten bytes is refused as malformed, whatever the catalogue would answer |
| IsbnLookup.SeparatorsRejected | backend-go/handlers/isbn.go:39-48 | every ISBN made only of hyphens and spaces is refused as malformed |
| IsbnLookup.SeparatorsOnly | backend-go/handlers/isbn.go:39-40 | a text made only of hyphens and spaces cleans to nothing |
| IsbnLookup.SharedBookByIsbn | backend-go/handlers/isbn.go:107-111 | gorm's `First`: nothing exactly when no entry has the ISBN, otherwise the least id among those that do |
| IsbnLookup.CoverAfterLookup | backend-go/handlers/isbn.go:112-115 | a looked-up cover replaces the stored one; an empty one keeps it |
| IsbnLookup.LookupISBN | backend-go/handlers/isbn.go:30-142 | an early answer changes no entry; a hit reuses the first entry with the ISBN, changing only its cover, or adds one new entry from Open Library, and answers found with that entry's id, which is then the first with the ISBN |
| IsbnLookup.ReusedEntryStaysFirst | backend-go/handlers/isbn.go:110-115 | changing only another field of the first entry with an ISBN keeps it the first |
| IsbnLookup.FreshEntryIsFirst | backend-go/handlers/isbn.go:116-127 | a new entry with an ISBN no other entry has is the first with it |
| PdfReport.TruncateString | api/services/pdf_report.go:303-308 | never longer than the width; a text that fits is kept; a longer one is its first width-3 bytes followed by "..." |
| PdfReport.TruncateIdempotent | api/services/pdf_report.go:303-308 | truncating twice to the same width changes nothing more |
| PdfReport.TruncateKeepsPrefix | api/services/pdf_report.go:303-308 | a truncated text keeps a prefix of the original of at least width-3 bytes, or all of it |
| PdfReport.PdfBookOf | api/services/pdf_report.go:92-110 | the record's date, lexile level and partial fields are copied; title, author, ISBN and cover come from the loaded catalogue entry, or the custom fields and no cover |
| PdfReport.ReportAgreesWithBookList | api/services/pdf_report.go:99-110 | the report shows a record with the same title, author, ISBN, cover, date and lexile level as the book list conversion, and a custom record never has a cover |
| PdfReport.CellTextOf | api/services/pdf_report.go:261-294 | title at most 25 bytes and author at most 30; a lexile line exactly when there is a level, an ISBN line (ISBN at most 15) exactly when there is an ISBN, a note (at most 30) exactly for a partial read with a comment |
| PdfReport.Reverse | api/services/pdf_report.go:72 | element i of the result is element len-1-i of the input |
| PdfReport.BooksForMonth | api/services/pdf_report.go:62-76 | oldest first; exactly the child's stored records dated within the month, as many as the month count gives |
| PdfReport.ReverseOfNewestFirst | api/services/pdf_report.go:72 | reading a newest-first list backwards gives an oldest-first list of the same records |
| PdfReport.ConvertForPdf | api/services/pdf_report.go:79-113 | the loop gives one entry per record, in order, each the record's report entry |
| PdfReport.CellOf | api/services/pdf_report.go:186-208 | every entry has a column below 4 and a row below 8, and its index is page*32 + row*4 + column |
| PdfReport.CellsDistinct | api/services/pdf_report.go:186-208 | two entries never share a cell |
| PdfReport.PageBreaks | api/services/pdf_report.go:193-199 | a new page starts exactly before entries 32, 64, ..., at the first cell; every other entry stays on its predecessor's page |
| PdfReport.PageCount | api/services/pdf_report.go:171-199 | at least one page; with entries, just enough pages of 32 to hold them |
| PdfReport.LayOut | api/services/pdf_report.go:193-211 | the drawing loop gives each entry its cell, all on the pages it starts, as many as the page count says |
| PdfReport.GenerateMonthlyBooks | api/services/pdf_report.go:30-59 | fails exactly when the child is missing, with gorm's error; otherwise the child's month records, oldest first, each with its cell, on the page count they need |
| KotlinUserService.UsersTable.constructor | backend/src/main/kotlin/com/booktracker/model/Tables.kt:6-14 | a new table is empty and valid: rows under their own ids, below the counter, emails unique |
| KotlinUserService.GetUserByEmail | backend/src/main/kotlin/com/booktracker/service/UserService.kt:40-57 | `singleOrNull`: with unique emails, a row is found exactly when one holds the email, and it holds that email |
| KotlinUserService.GetUserById | backend/src/main/kotlin/com/booktracker/service/UserService.kt:59-76 | found exactly when the id has a row, and it is that row |
| KotlinUserService.GetAllUsers | backend/src/main/kotlin/com/booktracker/service/UserService.kt:78-93 | every row once: as many users as rows, each a row, and every row listed |
| KotlinUserService.InsertedUserIsFound | backend/src/main/kotlin/com/booktracker/model/Tables.kt:7 | a user added under a new id with a new email keeps emails unique and is what its email and its id find afterwards |
| KotlinUserService.CreateUser | backend/src/main/kotlin/com/booktracker/service/UserService.kt:13-37 | a taken email makes the unique index throw and changes nothing; otherwise one non-admin user, created and updated at the same instant, is inserted under the next id and returned as inserted |
| KotlinUserService.UpdateUser | backend/src/main/kotlin/com/booktracker/service/UserService.kt:95-113 | a missing id gives null and changes nothing; an email held by another row throws and changes nothing; otherwise only that row's email, names, admin flag and update time change and the row is read back |
| KotlinUserService.DeleteUser | backend/src/main/kotlin/com/booktracker/service/UserService.kt:115-119 | true exactly when the id had a row; the row is gone afterwards and nothing else changes |
| KotlinAuthService.JwtSecret | backend/src/main/kotlin/com/booktracker/service/AuthService.kt:14 | the environment's secret when the variable is set, even to empty text; the fallback only when it is unset |
| KotlinAuthService.GenerateToken | backend/src/main/kotlin/com/booktracker/service/AuthService.kt:45-52 | throws exactly when the secret is empty; otherwise the subject is the user id in decimal, signed with the secret, expiring 24 hours after issue in whole seconds |
| KotlinAuthService.VerifyToken | backend/src/main/kotlin/com/booktracker/service/AuthService.kt:54-61 | yields the subject's number exactly when the secret is not empty, the token was signed with it, has not expired and its subject is a number; an empty secret, a bad key or an unreadable token is null |
| KotlinAuthService.GeneratedTokenVerifies | backend/src/main/kotlin/com/booktracker/service/AuthService.kt:45-61 | a token that was generated verifies to its user id from issue until 24 hours later, and is refused from the second after |
| KotlinAuthService.UserResponseOf | backend/src/main/kotlin/com/booktracker/service/AuthService.kt:33-40 | the public description copies id, email, admin flag and creation time and has no password hash |
| KotlinAuthService.Login | backend/src/main/kotlin/com/booktracker/service/AuthService.kt:25-52 | null exactly when no single user has the email or the password does not verify; valid credentials throw under an empty secret and otherwise give a token for that user and their description |
| KotlinAuthService.LoginFailuresAlike | backend/src/main/kotlin/com/booktracker/service/AuthService.kt:25-30 | an unknown email and a wrong password both give null, whatever the secret |
| KotlinAuthService.LoginTokenVerifies | backend/src/main/kotlin/com/booktracker/service/AuthService.kt:25-61 | the token a login hands out verifies straight away to the id of the user it describes |
| KotlinAuthRoutes.RegisterUser | backend/src/main/kotlin/com/booktracker/routes/AuthRoutes.kt:22-52 | an unreadable body is a 500 and a taken email a 400, both changing nothing; answered 201 exactly otherwise, after storing one non-admin user with the password's hash, never the password |
| KotlinAuthRoutes.LoginUser | backend/src/main/kotlin/com/booktracker/routes/AuthRoutes.kt:54-70 | an unreadable body is a 500; a login that throws is a 500 "Login failed: Empty key"; otherwise 200 with the service's response exactly when it gives one, and 401 whenever it gives null |
| KotlinAuthRoutes.RegisteredUserCanLogIn | backend/src/main/kotlin/com/booktracker/routes/AuthRoutes.kt:22-70 | whoever registers can log in straight away with the same email and password, and the token names the new user; under an empty secret that login is a 500 |
| KotlinAuthRoutes.SecondRegistrationRefused | backend/src/main/kotlin/com/booktracker/routes/AuthRoutes.kt:30-36 | after a registration the email is found, so registering it again is refused |
| CustomBookForm.LowerChar | frontend/src/components/AddCustomBookModal.jsx:49 | 'A' to 'Z' become the matching 'a' to 'z' and every other character is kept |
| CustomBookForm.Lower | frontend/src/components/AddCustomBookModal.jsx:49 | the same length, each character lower-cased in place |
| CustomBookForm.Trim | frontend/src/components/AddCustomBookModal.jsx:49 | the result is empty or neither starts nor ends with white space |
| CustomBookForm.TrimBounds | frontend/src/components/AddCustomBookModal.jsx:49 | the trimmed text is a middle slice of the input with only white space before and after it |
| CustomBookForm.TrimDropsOnlyOuterSpace | frontend/src/components/AddCustomBookModal.jsx:49 | `trim` removes only leading and trailing white space: the result is the input between a white-space prefix and a white-space suffix |
| CustomBookForm.TrimIgnoresOuterSpace | frontend/src/components/AddCustomBookModal.jsx:49 | white space added at both ends of a text is trimmed away again |
| CustomBookForm.NormalizeIgnoresCaseAndSpace | frontend/src/components/AddCustomBookModal.jsx:44-49 | an ASCII case variant of a text, padded with white space, has the text's normal form |
| CustomBookForm.BlankIffAllSpace | frontend/src/components/AddCustomBookModal.jsx:44 | trimming leaves nothing exactly when the text is all white space |
| CustomBookForm.BlankIffNormalEmpty | frontend/src/components/AddCustomBookModal.jsx:44-49 | a text is blank exactly when its normal form is empty |
| CustomBookForm.AnyMatchExactly | frontend/src/components/AddCustomBookModal.jsx:54-59 | `.some` holds exactly when some listed record matches |
| CustomBookForm.CheckForDuplicate | frontend/src/components/AddCustomBookModal.jsx:43-67 | a blank title or author is never a duplicate; otherwise a duplicate exactly when some finished custom record has the same normalised title and author |
| CustomBookForm.DuplicateFlag | frontend/src/components/AddCustomBookModal.jsx:24-31 | cleared for a partial read; otherwise the check's answer |
| CustomBookForm.DuplicateIgnoresCaseAndSpace | frontend/src/components/AddCustomBookModal.jsx:43-67 | a form whose title and author are case variants of another's, padded with white space, is flagged exactly when the other is |
| CustomBookForm.SameNormalFormSameFlag | frontend/src/components/AddCustomBookModal.jsx:43-67 | forms whose titles and authors normalise alike get the same verdict |
| CustomBookForm.OnlyFinishedCustomRecordsCount | frontend/src/components/AddCustomBookModal.jsx:54-59 | records read in part or taken from the catalogue never make the form a duplicate |
| CustomBookForm.FormValidity | frontend/src/components/AddCustomBookModal.jsx:129 | a finished read can be saved exactly when title and author are given and no finished custom record matches them; a partial read needs a comment and is never refused as a duplicate |
| CustomBookForm.PostingRules | frontend/src/components/AddCustomBookModal.jsx:79-106 | neither button posts a flagged form; "Finished Today" tests title and author untrimmed, so one space in each passes it while the form is invalid |

## Left out

- HTTP plumbing: gin contexts, CORS, route tables and header writes other than the answer are left out. Binding a JSON body is reduced to whether the body binds (`None` when it does not). The binding error's own text, which some handlers append to "Invalid request data", is dropped; the answer carries the fixed message.
- Database failures other than the missing rows the code names: connection loss, constraint violations other than the unique email index, and the 500 answers that only they reach. No modelled database write fails, so those branches never run.
- Transactions are modelled as sequential effects, with no atomic rollback.
- Concurrency: the permission cache's read-write lock is dropped, and every request runs alone.
- Primary keys: one counter hands out keys for every table, so key values differ from per-table autoincrement. Which rows exist and how they relate does not depend on it.
- Foreign keys (`backend-go/models/models.go:33`, `:49`, `:60-61`) are not enforced by the store's invariant. A record whose parent is missing is handled wherever the code handles it.
- Credentials.HashPassword: never fails. `bcrypt.GenerateFromPassword` returns an error, which `backend/services/auth.go:33-36` passes on and `backend-go/services/user.go:23-26` and `:291-294` return. Recent versions of the bcrypt package refuse passwords longer than 72 bytes there, so `UserService.NewUser`, `UserService.CreateUser`, `UserService.ResetUser` and `UserService.ResetPassword` do not model that refusal. The Kotlin side's jBCrypt instead ignores everything after 72 bytes, so two long passwords sharing their first 72 bytes verify against each other's hash. The model's "a hash verifies its own password only" holds only for passwords of at most 72 bytes.
- Cryptography: bcrypt, HMAC and the JWT compact text form are symbolic. The properties used are that a hash verifies its own password only and that a token verifies under the key that signed it. Reading random bytes is an input.
- The `binding:"email"` checks are reduced to presence: registration, login, profile update and invitation requests (`backend-go/models/models.go:72`, `:80`, `:87`, `:109`) bind with any non-empty email. The validator's address syntax is not modelled, so a malformed address the validator would refuse with 400 reaches the service in the model.
- Sending email (verification, reset, invitation) is reduced to an input saying whether the send failed. The email text and the SMTP exchange are left out.
- Google OAuth: the redirects, the code exchange, the profile fetch and the random `state` are left out. Only the state-cookie and code checks at the start of the callback are modelled (`GoAuthHandlers.GoogleCallbackGuard`).
- The Open Library request and its JSON decoding are an input (`IsbnLookup.Upstream`). A failed insert of a new catalogue entry, which would leave its id empty, is not modelled.
- PDF output: gofpdf drawing, page geometry in floating point, cover downloads and the temporary files are left out. The report is modelled up to what is drawn in which cell of which page.
- PdfReport.GenerateMonthlyBooks: record dates are kept as the stored text. `time.Parse` and its fallback to the current time only affect the printed date line, which is not modelled.
- PdfReport.BooksForMonth: the `BETWEEN` bounds are the first instant of the month and one nanosecond before the next month. They are read as the same half-open text window the month queries use. This reading depends on the SQLite driver: if it binds the bounds as timestamp texts such as "YYYY-MM-01 00:00:00+00:00", a record stored as the bare date "YYYY-MM-01" sorts before the lower bound and drops out of the report, and a record dated the last day of the month sorts inside. The model instead keeps day 1 and every later day of the month.
- MonthWindow.MonthWindowExact: proved for valid dates with a four-digit year other than December 9999. For December 9999 the window selects nothing (`MonthWindow.December9999SelectsNothing`).
- GoAuthHandlers.BulkInviteUser: for an unregistered email it states only that no permission is written and which message a success carries. The invitation rows and the 500 answers of that branch are stated by `GoAuthHandlers.InviteUnregistered`.
- KotlinAuthRoutes.RegisterUser, KotlinAuthRoutes.LoginUser: a 500 for an unreadable body carries the fixed prefix of its message; the lens's exception text appended to it is not modelled. The 500 of a login under an empty `JWT_SECRET` carries java-jwt's "Empty key" in full.
- The front end's React state, effects, fetching and rendering are left out, and so are all other components. `toLowerCase` and `trim` are modelled over ASCII letters and ASCII white space.
- `api/services/book.go`, `api/services/child.go`, `api/services/user.go`, `api/middleware` and `api/models` are not part of this model. The `api` handlers are modelled over the `backend/services/book.go`, `backend-go/services/child.go`, `backend-go/services/user.go` and `backend/middleware/auth.go` operations of the same names.
- The `backend` and `backend-go` handlers call services that their own `services` directories do not define, and each call is modelled over the operation of the same name elsewhere. `backend/handlers/child.go:290` and `:302` and `backend/handlers/permission.go:58` call `GetUserByEmail` and `GetUserByID`, modelled over `backend-go/services/user.go:78` and `:91` (`UserService`). `backend/handlers/child.go:293` and `:341` call `CreatePendingInvitation` and `CreatePermission`, modelled over `InvitationService` and `PermissionService` (`api/services/invitation.go:24`, `api/services/permission.go:9`, which `backend-go/services` repeats). `backend/handlers/permission.go:47`, `:99` and `:122` call `GetPermissionsByChild`, `GetPermissionByID` and `DeletePermissionByID`, modelled over `api/services/permission.go:38`, `:51` and `:61`. `backend-go/handlers/auth.go:69`, `:255` and `:288` call `ProcessBulkInvitationRegistration`, `CreateBulkPendingInvitation` and `CreateOrUpdatePermission`, modelled over `api/services/invitation.go:184` and `:141` and `api/services/permission.go:66`. `backend-go/handlers/auth.go:136` calls `Login`, modelled over `backend/services/auth.go:96` (`AuthService`). `backend-go/handlers/child.go:338` and `:380` call `GetChildrenWithBookCounts` and `GetBookCountsForUserChildren`, modelled over `backend/services/child.go:139` and `:178` (`BackendChildService`); these two handlers (`backend-go/handlers/child.go:307-389`) repeat `backend/handlers/child.go:352-434` line for line and are modelled once, by `BackendChildHandlers.GetChildrenWithBookCounts` and `BackendChildHandlers.GetBookCountsForChildren`.
- `backend/models` is not part of this model. The `backend` records carry the fields its services and handlers use.
- `backend-go/handlers/book.go` builds child entries from first and last names that `backend-go/models/models.go` does not declare. The model describes a `backend-go` child by its single name.

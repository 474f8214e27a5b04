/** The book routes of `api/handlers/book.go`: every write is behind an EDIT
    check on the record's child and every read behind a VIEW check, and
    every answer is built by the record-to-response conversion. The
    services they call are those of `backend/services/book.go`
    (`BackendBookService`, `BookQueries`). */
module ApiBookHandlers {
  import opened Common
  import opened Text
  import opened Records
  import opened Store
  import opened AuthMiddleware
  import opened Handlers
  import ChildService
  import BookQueries
  import BackendBookService
  import BackendChildHandlers
  import PermissionCacheModule

  datatype BookResponse = BookResponse(
    id: nat,
    isbn: string,
    title: string,
    author: string,
    coverUrl: string,
    dateRead: string,
    childId: nat,
    lexileLevel: string,
    isPartial: bool,
    partialComment: string,
    isCustomBook: bool,
    sharedBookId: Option<nat>,
    createdAt: int)

  /** The catalogue entry gorm preloads with a record read from the store:
      present when the record refers to one that exists. */
  function Preloaded(b: Book, sharedBooks: map<nat, SharedBook>): (r: Option<SharedBook>)
    ensures r.Some? <==> b.sharedBookId.Some? && b.sharedBookId.value in sharedBooks
    ensures r.Some? ==> r.value == sharedBooks[b.sharedBookId.value]
  {
    if b.sharedBookId.Some? && b.sharedBookId.value in sharedBooks then Some(sharedBooks[b.sharedBookId.value])
    else None
  }

  /** `convertBookToResponse`: the record's own fields always; the
      catalogue's ISBN, title, author and cover only when the record refers
      to an entry and that entry was loaded; the custom fields otherwise,
      marked as a custom book with no shared id. */
  function BookToResponse(b: Book, loaded: Option<SharedBook>): (r: BookResponse)
    ensures r.id == b.id && r.dateRead == b.dateRead && r.childId == b.childId && r.lexileLevel == b.lexileLevel
    ensures r.isPartial == b.isPartial && r.partialComment == b.partialComment && r.createdAt == b.createdAt
    ensures !r.isCustomBook <==> b.sharedBookId.Some? && loaded.Some?
    ensures !r.isCustomBook ==> (r.sharedBookId == b.sharedBookId && r.isbn == loaded.value.isbn
                                 && r.title == loaded.value.title && r.author == loaded.value.author
                                 && r.coverUrl == loaded.value.coverUrl)
    ensures r.isCustomBook ==> (r.sharedBookId.None? && r.isbn == b.customIsbn && r.title == b.customTitle
                                && r.author == b.customAuthor && r.coverUrl == "")
  {
    var base := BookResponse(b.id, "", "", "", "", b.dateRead, b.childId, b.lexileLevel, b.isPartial,
                             b.partialComment, false, None, b.createdAt);
    if b.sharedBookId.Some? && loaded.Some? then
      base.(isbn := loaded.value.isbn, title := loaded.value.title, author := loaded.value.author,
            coverUrl := loaded.value.coverUrl, isCustomBook := false, sharedBookId := b.sharedBookId)
    else
      base.(isbn := b.customIsbn, title := b.customTitle, author := b.customAuthor, isCustomBook := true)
  }

  /** The responses for records read from the store, position by
      position. */
  function ResponsesOf(books: seq<Book>, sharedBooks: map<nat, SharedBook>): (r: seq<BookResponse>)
    ensures |r| == |books|
  {
    seq(|books|, i requires 0 <= i < |books| => BookToResponse(books[i], Preloaded(books[i], sharedBooks)))
  }

  /** `convertBooksToResponses`: an empty list gives an empty list, and
      otherwise a buffer of the input's length is filled position by
      position, so element `i` is the conversion of record `i`; a one-record
      list gives exactly what `convertBookToResponse` gives. */
  method ConvertBooksToResponses(books: seq<Book>, sharedBooks: map<nat, SharedBook>) returns (r: seq<BookResponse>)
    ensures r == ResponsesOf(books, sharedBooks)
    ensures |books| == 1 ==> r == [BookToResponse(books[0], Preloaded(books[0], sharedBooks))]
  {
    if |books| == 0 {
      return [];
    }
    var responses := new BookResponse[|books|];
    for i := 0 to |books|
      invariant forall j :: 0 <= j < i ==> responses[j] == BookToResponse(books[j], Preloaded(books[j], sharedBooks))
    {
      responses[i] := BookToResponse(books[i], Preloaded(books[i], sharedBooks));
    }
    r := responses[..];
  }

  /** A record just created is answered without its catalogue entry
      loaded, so a record of a shared book comes back marked as a custom
      book with the (empty) custom title, author and ISBN. */
  lemma CreatedSharedRecordAnsweredAsCustom(b: Book)
    requires b.sharedBookId.Some? && b.customTitle == "" && b.customAuthor == "" && b.customIsbn == ""
    ensures var r := BookToResponse(b, None);
      r.isCustomBook && r.sharedBookId.None? && r.title == "" && r.author == "" && r.isbn == ""
  {
  }

  /** The permission check of every book route: 500 with the lookup error
      when the child is missing, 403 when the check says no. */
  function AccessCheck(children: map<nat, Child>, permissions: map<nat, Permission>, userId: nat, childId: nat,
                       requested: PermType): (r: Reply<()>)
    ensures r.Answered? <==> ChildService.CheckChildPermission(children, permissions, userId, childId, requested)
                               == Ok(true)
    ensures childId !in children ==> r == Refused(StatusInternalServerError, FailedToCheckPermission + "record not found")
    ensures (ChildService.CheckChildPermission(children, permissions, userId, childId, requested) == Ok(false))
      ==> r == Refused(StatusForbidden, AccessDenied)
  {
    match ChildService.CheckChildPermission(children, permissions, userId, childId, requested)
    case Err(e) => Refused(StatusInternalServerError, FailedToCheckPermission + e)
    case Ok(allowed) => if !allowed then Refused(StatusForbidden, AccessDenied) else Answered(StatusOK, ())
  }

  const InvalidBookId: string := "Invalid book ID"

  /** The guard of the routes that name a record by id: a caller, a path
      id, a record with that id (404 before any permission check), then the
      requested level on the record's child. The answer is the record. */
  function BookGuard(children: map<nat, Child>, permissions: map<nat, Permission>, books: map<nat, Book>,
                     ctx: RequestContext, idParam: string, requested: PermType): (r: Reply<Book>)
    ensures r.Answered? <==> (GetCurrentUserID(ctx).1 && ParseUint32(idParam).Some?
                              && ParseUint32(idParam).value in books
                              && ChildService.CheckChildPermission(children, permissions, GetCurrentUserID(ctx).0,
                                   books[ParseUint32(idParam).value].childId, requested) == Ok(true))
    ensures r.Answered? ==> r.value == books[ParseUint32(idParam).value]
    ensures !GetCurrentUserID(ctx).1 ==> r == Refused(StatusUnauthorized, NoCurrentUser)
    ensures GetCurrentUserID(ctx).1 && ParseUint32(idParam).None? ==> r == Refused(StatusBadRequest, InvalidBookId)
    ensures (GetCurrentUserID(ctx).1 && ParseUint32(idParam).Some? && ParseUint32(idParam).value !in books)
      ==> r == Refused(StatusNotFound, "book not found")
  {
    var (userId, ok) := GetCurrentUserID(ctx);
    if !ok then Refused(StatusUnauthorized, NoCurrentUser)
    else match ParseUint32(idParam)
      case None => Refused(StatusBadRequest, InvalidBookId)
      case Some(id) =>
        match BackendBookService.GetBookByID(books, id)
        case Err(e) => Refused(StatusNotFound, e)
        case Ok(book) =>
          match AccessCheck(children, permissions, userId, book.childId, requested)
          case Refused(status, message) => Refused(status, message)
          case Answered(_, _) => Answered(StatusOK, book)
  }

  /** `GetBookByID`: VIEW on the record's child. */
  function GetBookByID(children: map<nat, Child>, permissions: map<nat, Permission>, books: map<nat, Book>,
                       sharedBooks: map<nat, SharedBook>, ctx: RequestContext, idParam: string)
    : (r: Reply<BookResponse>)
    ensures var guard := BookGuard(children, permissions, books, ctx, idParam, View);
      && (guard.Refused? ==> r == Refused(guard.status, guard.message))
      && (guard.Answered? ==> r == Answered(StatusOK, BookToResponse(guard.value, Preloaded(guard.value, sharedBooks))))
  {
    match BookGuard(children, permissions, books, ctx, idParam, View)
    case Refused(status, message) => Refused(status, message)
    case Answered(_, book) => Answered(StatusOK, BookToResponse(book, Preloaded(book, sharedBooks)))
  }

  /** The part `CreateBook` and `CreateBookForChild` share once the
      request is bound: EDIT on the request's child, then the service. Only
      a passed check reaches the store. */
  method CreateChecked(db: Db, userId: nat, req: BackendBookService.CreateBookRequest, now: int)
    returns (r: Reply<BookResponse>)
    requires db.Valid()
    modifies db`books, db`nextId
    ensures db.Valid()
    ensures var check := AccessCheck(db.children, db.permissions, userId, req.childId, Edit);
      check.Refused? ==> r == Refused(check.status, check.message) && db.books == old(db.books)
    ensures var check := AccessCheck(db.children, db.permissions, userId, req.childId, Edit);
      check.Answered? && BackendBookService.CreateAccepted(old(db.books), req) ==> r.Answered?
    ensures var check := AccessCheck(db.children, db.permissions, userId, req.childId, Edit);
      check.Answered? && !BackendBookService.CreateAccepted(old(db.books), req) ==>
        r == Refused(StatusInternalServerError, "Failed to create book: " + BackendBookService.CreateRefusal(req))
    ensures r.Refused? ==> db.books == old(db.books)
    ensures r.Answered? ==>
      && AccessCheck(db.children, db.permissions, userId, req.childId, Edit).Answered?
      && r.status == StatusCreated && r.value.id !in old(db.books)
      && r.value.id in db.books && db.books == old(db.books)[r.value.id := db.books[r.value.id]]
      && db.books[r.value.id] == BackendBookService.RecordOf(req, r.value.id, now)
      && r.value == BookToResponse(db.books[r.value.id], None)
  {
    var check := AccessCheck(db.children, db.permissions, userId, req.childId, Edit);
    if check.Refused? {
      return Refused(check.status, check.message);
    }
    var book := BackendBookService.CreateBook(db, req, now);
    if book.Err? {
      return Refused(StatusInternalServerError, "Failed to create book: " + book.message);
    }
    r := Answered(StatusCreated, BookToResponse(book.value, None));
  }

  /** `CreateBook`: the child comes from the body. */
  method CreateBook(db: Db, ctx: RequestContext, body: Option<BackendBookService.CreateBookRequest>, now: int)
    returns (r: Reply<BookResponse>)
    requires db.Valid()
    modifies db`books, db`nextId
    ensures db.Valid()
    ensures !GetCurrentUserID(ctx).1 ==> r == Refused(StatusUnauthorized, NoCurrentUser)
    ensures GetCurrentUserID(ctx).1 && body.None? ==> r == Refused(StatusBadRequest, InvalidRequestData)
    ensures (GetCurrentUserID(ctx).1 && body.Some?
             && AccessCheck(db.children, db.permissions, GetCurrentUserID(ctx).0, body.value.childId, Edit).Answered?
             && BackendBookService.CreateAccepted(old(db.books), body.value)) ==> r.Answered?
    ensures r.Refused? ==> db.books == old(db.books)
    ensures r.Answered? ==>
      && body.Some? && AccessCheck(db.children, db.permissions, GetCurrentUserID(ctx).0, body.value.childId, Edit).Answered?
      && r.status == StatusCreated && r.value.id !in old(db.books)
      && r.value.id in db.books && db.books == old(db.books)[r.value.id := db.books[r.value.id]]
      && db.books[r.value.id] == BackendBookService.RecordOf(body.value, r.value.id, now)
  {
    var (userId, ok) := GetCurrentUserID(ctx);
    if !ok {
      return Refused(StatusUnauthorized, NoCurrentUser);
    }
    if body.None? {
      return Refused(StatusBadRequest, InvalidRequestData);
    }
    r := CreateChecked(db, userId, body.value, now);
  }

  /** `CreateBookForChild`: the child named in the path replaces whatever
      the body says before the check, so the record is always created for
      the child the caller was checked against. */
  method CreateBookForChild(db: Db, ctx: RequestContext, childIdParam: string,
                            body: Option<BackendBookService.CreateBookRequest>, now: int)
    returns (r: Reply<BookResponse>)
    requires db.Valid()
    modifies db`books, db`nextId
    ensures db.Valid()
    ensures !GetCurrentUserID(ctx).1 ==> r == Refused(StatusUnauthorized, NoCurrentUser)
    ensures GetCurrentUserID(ctx).1 && ParseUint32(childIdParam).None? ==> r == Refused(StatusBadRequest, InvalidChildId)
    ensures GetCurrentUserID(ctx).1 && ParseUint32(childIdParam).Some? && body.None?
      ==> r == Refused(StatusBadRequest, InvalidRequestData)
    ensures (GetCurrentUserID(ctx).1 && ParseUint32(childIdParam).Some? && body.Some?
             && AccessCheck(db.children, db.permissions, GetCurrentUserID(ctx).0, ParseUint32(childIdParam).value,
                            Edit).Answered?
             && BackendBookService.CreateAccepted(old(db.books),
                                                  body.value.(childId := ParseUint32(childIdParam).value)))
      ==> r.Answered?
    ensures r.Refused? ==> db.books == old(db.books)
    ensures r.Answered? ==>
      var childId := ParseUint32(childIdParam).value;
      && body.Some? && AccessCheck(db.children, db.permissions, GetCurrentUserID(ctx).0, childId, Edit).Answered?
      && r.status == StatusCreated && r.value.id !in old(db.books)
      && r.value.id in db.books && db.books == old(db.books)[r.value.id := db.books[r.value.id]]
      && db.books[r.value.id] == BackendBookService.RecordOf(body.value.(childId := childId), r.value.id, now)
      && db.books[r.value.id].childId == childId
  {
    var (userId, ok) := GetCurrentUserID(ctx);
    if !ok {
      return Refused(StatusUnauthorized, NoCurrentUser);
    }
    var childId := ParseUint32(childIdParam);
    if childId.None? {
      return Refused(StatusBadRequest, InvalidChildId);
    }
    if body.None? {
      return Refused(StatusBadRequest, InvalidRequestData);
    }
    var req := body.value.(childId := childId.value);
    r := CreateChecked(db, userId, req, now);
  }

  /** `CreateCustomBookForChild`: the same override and check, then the
      custom-book service. */
  method CreateCustomBookForChild(db: Db, ctx: RequestContext, childIdParam: string,
                                  body: Option<BackendBookService.CreateCustomBookRequest>, now: int)
    returns (r: Reply<BookResponse>)
    requires db.Valid()
    modifies db`books, db`nextId
    ensures db.Valid()
    ensures !GetCurrentUserID(ctx).1 ==> r == Refused(StatusUnauthorized, NoCurrentUser)
    ensures GetCurrentUserID(ctx).1 && ParseUint32(childIdParam).None? ==> r == Refused(StatusBadRequest, InvalidChildId)
    ensures GetCurrentUserID(ctx).1 && ParseUint32(childIdParam).Some? && body.None?
      ==> r == Refused(StatusBadRequest, InvalidRequestData)
    ensures (GetCurrentUserID(ctx).1 && ParseUint32(childIdParam).Some? && body.Some?
             && AccessCheck(db.children, db.permissions, GetCurrentUserID(ctx).0, ParseUint32(childIdParam).value,
                            Edit).Answered?)
      ==> (r.Answered? <==> (body.value.isPartial
             || !BackendBookService.HasWholeCustomRead(old(db.books), ParseUint32(childIdParam).value,
                                                       body.value.title, body.value.author)))
    ensures r.Refused? ==> db.books == old(db.books)
    ensures r.Answered? ==>
      var childId := ParseUint32(childIdParam).value;
      && body.Some? && AccessCheck(db.children, db.permissions, GetCurrentUserID(ctx).0, childId, Edit).Answered?
      && r.status == StatusCreated && r.value.id !in old(db.books)
      && r.value.id in db.books && db.books == old(db.books)[r.value.id := db.books[r.value.id]]
      && db.books[r.value.id] == BackendBookService.CustomRecordOf(body.value.(childId := childId), r.value.id, now)
      && db.books[r.value.id].childId == childId && r.value.isCustomBook
  {
    var (userId, ok) := GetCurrentUserID(ctx);
    if !ok {
      return Refused(StatusUnauthorized, NoCurrentUser);
    }
    var childId := ParseUint32(childIdParam);
    if childId.None? {
      return Refused(StatusBadRequest, InvalidChildId);
    }
    if body.None? {
      return Refused(StatusBadRequest, InvalidRequestData);
    }
    var req := body.value.(childId := childId.value);
    var check := AccessCheck(db.children, db.permissions, userId, req.childId, Edit);
    if check.Refused? {
      return Refused(check.status, check.message);
    }
    var book := BackendBookService.CreateCustomBook(db, req, now);
    if book.Err? {
      return Refused(StatusInternalServerError, "Failed to create book: " + book.message);
    }
    r := Answered(StatusCreated, BookToResponse(book.value, None));
  }

  /** `UpdateBook`: 404 for a missing record, then EDIT, then the body;
      only then is the record edited. */
  method UpdateBook(db: Db, ctx: RequestContext, idParam: string,
                    body: Option<BackendBookService.UpdateBookRequest>, now: int) returns (r: Reply<BookResponse>)
    requires db.Valid()
    modifies db`books
    ensures db.Valid()
    ensures var guard := BookGuard(db.children, db.permissions, old(db.books), ctx, idParam, Edit);
      && (guard.Refused? ==> r == Refused(guard.status, guard.message) && db.books == old(db.books))
      && (guard.Answered? && body.None? ==> r == Refused(StatusBadRequest, InvalidRequestData)
                                            && db.books == old(db.books))
      && (guard.Answered? && body.Some? ==>
            var updated := BackendBookService.ApplyBookUpdate(guard.value, body.value, now);
            && db.books == old(db.books)[guard.value.id := updated]
            && r == Answered(StatusOK, BookToResponse(updated, Preloaded(updated, db.sharedBooks))))
  {
    var guard := BookGuard(db.children, db.permissions, db.books, ctx, idParam, Edit);
    if guard.Refused? {
      return Refused(guard.status, guard.message);
    }
    if body.None? {
      return Refused(StatusBadRequest, InvalidRequestData);
    }
    // The guard has found the record, so the update cannot miss it.
    var id := ParseUint32(idParam).value;
    var updated := BackendBookService.UpdateBook(db, id, body.value, now);
    r := Answered(StatusOK, BookToResponse(updated.value, Preloaded(updated.value, db.sharedBooks)));
  }

  /** `DeleteBook`: 404 for a missing record, then EDIT; only then is the
      record removed. */
  method DeleteBook(db: Db, ctx: RequestContext, idParam: string) returns (r: Reply<()>)
    requires db.Valid()
    modifies db`books
    ensures db.Valid()
    ensures var guard := BookGuard(db.children, db.permissions, old(db.books), ctx, idParam, Edit);
      && (guard.Refused? ==> r == Refused(guard.status, guard.message) && db.books == old(db.books))
      && (guard.Answered? ==> r == Answered(StatusNoContent, ()) && db.books == old(db.books) - {guard.value.id})
  {
    var guard := BookGuard(db.children, db.permissions, db.books, ctx, idParam, Edit);
    if guard.Refused? {
      return Refused(guard.status, guard.message);
    }
    var _ := BackendBookService.DeleteBook(db, ParseUint32(idParam).value);
    r := Answered(StatusNoContent, ());
  }

  /** `GetBooks`: with no `childId` query, every record the caller may see;
      with one, VIEW on that child and its records. */
  method GetBooks(db: Db, ctx: RequestContext, childIdParam: string) returns (r: Reply<seq<BookResponse>>)
    requires db.Valid()
    ensures !GetCurrentUserID(ctx).1 ==> r == Refused(StatusUnauthorized, NoCurrentUser)
    ensures GetCurrentUserID(ctx).1 && childIdParam == "" ==>
      r == Answered(StatusOK, ResponsesOf(BookQueries.GetBooksForUser(db.children, db.permissions, db.books,
                                                                       GetCurrentUserID(ctx).0), db.sharedBooks))
    ensures GetCurrentUserID(ctx).1 && childIdParam != "" ==>
      var guard := PermissionGuard(db.children, db.permissions, ctx, childIdParam, View);
      && (guard.Refused? ==> r == Refused(guard.status, guard.message))
      && (guard.Answered? ==>
            r == Answered(StatusOK, ResponsesOf(BookQueries.GetBooksByChild(db.books, guard.value.1), db.sharedBooks)))
  {
    var (userId, ok) := GetCurrentUserID(ctx);
    if !ok {
      return Refused(StatusUnauthorized, NoCurrentUser);
    }
    if childIdParam != "" {
      var guard := PermissionGuard(db.children, db.permissions, ctx, childIdParam, View);
      if guard.Refused? {
        return Refused(guard.status, guard.message);
      }
      var books := BookQueries.GetBooksByChild(db.books, guard.value.1);
      var responses := ConvertBooksToResponses(books, db.sharedBooks);
      return Answered(StatusOK, responses);
    }
    var books := BookQueries.GetBooksForUser(db.children, db.permissions, db.books, userId);
    var responses := ConvertBooksToResponses(books, db.sharedBooks);
    r := Answered(StatusOK, responses);
  }

  /** What `GetBooksForChild` lists, from its optional query parameters. */
  datatype ChildBooksQuery = AllBooks | MonthBooks(year: int, month: int) | MonthCount(year: int, month: int)

  /** The month filter applies only when both `year` and `month` are
      given, and then they must be valid; `count_only` counts only within
      a month. */
  function ChildBooksQueryOf(year: string, month: string, countOnly: string): (r: Result<ChildBooksQuery>)
    ensures year == "" || month == "" ==> r == Ok(AllBooks)
    ensures year != "" && month != "" ==>
      (r.Err? <==> ParseYearMonth(year, month).Err?) && (r.Err? ==> r == Err(InvalidYearMonth))
    ensures r.Ok? && r.value != AllBooks ==>
      ParseYearMonth(year, month) == Ok((r.value.year, r.value.month)) && (r.value.MonthCount? <==> countOnly == "true")
  {
    if year == "" || month == "" then Ok(AllBooks)
    else match ParseYearMonth(year, month)
      case Err(e) => Err(e)
      case Ok(ym) => if countOnly == "true" then Ok(MonthCount(ym.0, ym.1)) else Ok(MonthBooks(ym.0, ym.1))
  }

  datatype BooksOrCount = Books(books: seq<BookResponse>) | Count(count: nat)

  /** `GetBooksForChild`: VIEW through the request's permission cache,
      then the listing the query asks for. While the cache agrees with the
      store, nothing is answered without VIEW. */
  method GetBooksForChild(db: Db, cache: PermissionCacheModule.PermissionCache, ctx: RequestContext,
                          childIdParam: string, year: string, month: string, countOnly: string, now: int)
    returns (r: Reply<BooksOrCount>)
    requires db.Valid()
    modifies cache`cache
    ensures !GetCurrentUserID(ctx).1 ==> r == Refused(StatusUnauthorized, NoCurrentUser)
    ensures GetCurrentUserID(ctx).1 && ParseUint32(childIdParam).None? ==> r == Refused(StatusBadRequest, InvalidChildId)
    ensures r.Answered? ==> GetCurrentUserID(ctx).1 && ParseUint32(childIdParam).Some?
    ensures PermissionCacheModule.Agrees(old(cache.cache), db.children, db.permissions) ==>
      PermissionCacheModule.Agrees(cache.cache, db.children, db.permissions)
    ensures !GetCurrentUserID(ctx).1 || ParseUint32(childIdParam).None? ==> cache.cache == old(cache.cache)
    ensures GetCurrentUserID(ctx).1 && ParseUint32(childIdParam).Some? ==>
      var key := PermissionCacheModule.CacheKey(GetCurrentUserID(ctx).0, ParseUint32(childIdParam).value, View);
      && old(cache.cache).Keys <= cache.cache.Keys <= old(cache.cache).Keys + {key}
      && (forall k :: k in old(cache.cache) && k != key ==> cache.cache[k] == old(cache.cache)[k])
    ensures (GetCurrentUserID(ctx).1 && ParseUint32(childIdParam).Some?
             && PermissionCacheModule.Agrees(old(cache.cache), db.children, db.permissions)) ==>
      var check := ChildService.CheckChildPermission(db.children, db.permissions, GetCurrentUserID(ctx).0,
                                                     ParseUint32(childIdParam).value, View);
      var q := ChildBooksQueryOf(year, month, countOnly);
      && (check.Err? ==> r == Refused(StatusInternalServerError, FailedToCheckPermission + check.message))
      && (check == Ok(false) ==> r == Refused(StatusForbidden, AccessDenied))
      && (check == Ok(true) && q.Err? ==> r == Refused(StatusBadRequest, q.message))
      && (r.Answered? <==> check == Ok(true) && q.Ok?)
    ensures r.Answered? && PermissionCacheModule.Agrees(old(cache.cache), db.children, db.permissions) ==>
      ChildService.CheckChildPermission(db.children, db.permissions, GetCurrentUserID(ctx).0,
                                        ParseUint32(childIdParam).value, View) == Ok(true)
    ensures r.Answered? ==>
      var childId := ParseUint32(childIdParam).value;
      var q := ChildBooksQueryOf(year, month, countOnly);
      && q.Ok? && r.status == StatusOK
      && r.value == match q.value
           case AllBooks => Books(ResponsesOf(BookQueries.GetBooksByChild(db.books, childId), db.sharedBooks))
           case MonthBooks(y, m) =>
             Books(ResponsesOf(BookQueries.GetBooksByChildAndMonth(db.books, childId, y, m), db.sharedBooks))
           case MonthCount(y, m) => Count(BookQueries.GetBookCountByChildAndMonth(db.books, childId, y, m))
  {
    var (userId, ok) := GetCurrentUserID(ctx);
    if !ok {
      return Refused(StatusUnauthorized, NoCurrentUser);
    }
    var childId := ParseUint32(childIdParam);
    if childId.None? {
      return Refused(StatusBadRequest, InvalidChildId);
    }
    var allowed := cache.GetOrCheck(db, userId, childId.value, View, now);
    if allowed.Err? {
      return Refused(StatusInternalServerError, FailedToCheckPermission + allowed.message);
    }
    if !allowed.value {
      return Refused(StatusForbidden, AccessDenied);
    }
    var q := ChildBooksQueryOf(year, month, countOnly);
    if q.Err? {
      return Refused(StatusBadRequest, q.message);
    }
    match q.value {
      case AllBooks =>
        var responses := ConvertBooksToResponses(BookQueries.GetBooksByChild(db.books, childId.value), db.sharedBooks);
        r := Answered(StatusOK, Books(responses));
      case MonthBooks(y, m) =>
        var books := BookQueries.GetBooksByChildAndMonth(db.books, childId.value, y, m);
        var responses := ConvertBooksToResponses(books, db.sharedBooks);
        r := Answered(StatusOK, Books(responses));
      case MonthCount(y, m) =>
        r := Answered(StatusOK, Count(BookQueries.GetBookCountByChildAndMonth(db.books, childId.value, y, m)));
    }
  }

  /** One child's part of the report. */
  datatype ChildReport = ChildReport(child: BackendChildHandlers.ChildResponse, books: seq<BookResponse>,
                                     totalBooks: nat)

  /** The records a report lists for one child: all of them, or those of
      one month. */
  function ReportBooks(books: map<nat, Book>, childId: nat, month: Option<(int, int)>): seq<Book>
    requires BooksKeyed(books)
  {
    match month
    case None => BookQueries.GetBooksByChild(books, childId)
    case Some(ym) => BookQueries.GetBooksByChildAndMonth(books, childId, ym.0, ym.1)
  }

  /** A child's report entry: its details, its records, and their number. */
  function ChildReportOf(child: Child, books: map<nat, Book>, sharedBooks: map<nat, SharedBook>,
                         month: Option<(int, int)>): (r: ChildReport)
    requires BooksKeyed(books)
    ensures r.totalBooks == |r.books| == |ReportBooks(books, child.id, month)|
    ensures r.child == BackendChildHandlers.ChildResponseOf(child)
  {
    var responses := ResponsesOf(ReportBooks(books, child.id, month), sharedBooks);
    ChildReport(BackendChildHandlers.ChildResponseOf(child), responses, |responses|)
  }

  /** The report's month filter: none unless both parameters are given,
      and then it must be valid. */
  function ReportMonth(year: string, month: string): (r: Result<Option<(int, int)>>)
    ensures year == "" || month == "" ==> r == Ok(None)
    ensures year != "" && month != "" ==>
      (r.Ok? <==> ParseYearMonth(year, month).Ok?)
      && (r.Ok? ==> r.value == Some(ParseYearMonth(year, month).value))
      && (r.Err? ==> r == Err(InvalidYearMonth))
  {
    if year == "" || month == "" then Ok(None)
    else match ParseYearMonth(year, month)
      case Err(e) => Err(e)
      case Ok(ym) => Ok(Some(ym))
  }

  /** The report loop: the month parameters are checked inside it, once
      per child, so an invalid month is only noticed when there is a
      child. */
  method ReportLoop(kids: seq<Child>, books: map<nat, Book>, sharedBooks: map<nat, SharedBook>,
                    year: string, month: string) returns (r: Reply<JsonList<ChildReport>>)
    requires BooksKeyed(books)
    ensures ReportMonth(year, month).Err? && kids != [] ==> r == Refused(StatusBadRequest, InvalidYearMonth)
    ensures kids == [] ==> r == Answered(StatusOK, Null)
    ensures ReportMonth(year, month).Ok? ==>
      && r.Answered? && r.status == StatusOK && (r.value.Null? <==> kids == []) && |Elements(r.value)| == |kids|
      && forall i :: 0 <= i < |kids| ==>
           Elements(r.value)[i] == ChildReportOf(kids[i], books, sharedBooks, ReportMonth(year, month).value)
  {
    var reports: seq<ChildReport> := [];
    var i := 0;
    while i < |kids|
      invariant 0 <= i <= |kids| && |reports| == i
      invariant ReportMonth(year, month).Err? ==> i == 0
      invariant ReportMonth(year, month).Ok? ==> forall j :: 0 <= j < i ==>
        reports[j] == ChildReportOf(kids[j], books, sharedBooks, ReportMonth(year, month).value)
    {
      var child := kids[i];
      var filter := ReportMonth(year, month);
      if filter.Err? {
        return Refused(StatusBadRequest, filter.message);
      }
      var list := ReportBooks(books, child.id, filter.value);
      var responses := ConvertBooksToResponses(list, sharedBooks);
      reports := reports + [ChildReport(BackendChildHandlers.ChildResponseOf(child), responses, |responses|)];
      i := i + 1;
    }
    r := Answered(StatusOK, ListOf(reports));
  }

  /** `GetMyBooksReport`: one entry per child the caller may see; with no
      such child the list is `null` and the month is never checked. */
  method GetMyBooksReport(db: Db, ctx: RequestContext, year: string, month: string)
    returns (r: Reply<JsonList<ChildReport>>)
    requires db.Valid()
    ensures !GetCurrentUserID(ctx).1 ==> r == Refused(StatusUnauthorized, NoCurrentUser)
    ensures GetCurrentUserID(ctx).1 ==>
      var kids := ChildService.GetChildrenWithPermission(db.children, db.permissions, GetCurrentUserID(ctx).0);
      && (ReportMonth(year, month).Err? && kids != [] ==> r == Refused(StatusBadRequest, InvalidYearMonth))
      && (kids == [] ==> r == Answered(StatusOK, Null))
      && (ReportMonth(year, month).Ok? ==>
            && r.Answered? && (r.value.Null? <==> kids == []) && |Elements(r.value)| == |kids|
            && forall i :: 0 <= i < |kids| ==>
                 Elements(r.value)[i] == ChildReportOf(kids[i], db.books, db.sharedBooks, ReportMonth(year, month).value))
  {
    var (userId, ok) := GetCurrentUserID(ctx);
    if !ok {
      return Refused(StatusUnauthorized, NoCurrentUser);
    }
    var kids := ChildService.GetChildrenWithPermission(db.children, db.permissions, userId);
    r := ReportLoop(kids, db.books, db.sharedBooks, year, month);
  }

  /** A caller who can see no child gets an empty report even for month
      13. */
  lemma NoChildrenNoMonthCheck(year: int)
    requires MinInt64 <= year <= MaxInt64
    ensures ReportMonth(FormatInt(year), FormatInt(13)) == Err(InvalidYearMonth)
  {
    ParseYearMonthOfNumbers(year, 13);
  }
}

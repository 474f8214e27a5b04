/** The book routes of `backend-go/handlers/book.go`. The guards are those of
    the `api` variant (`ApiBookHandlers.BookGuard` and `AccessCheck`, whose
    statuses and messages are the same here); what differs is the short
    response, the writes of `backend-go/services/book.go`, a plain
    permission check without a cache, and lists grown by `append` from a
    nil slice, which come out as JSON `null` when nothing was appended. */
module GoBookHandlers {
  import opened Common
  import opened Text
  import opened Records
  import opened Store
  import opened AuthMiddleware
  import opened Handlers
  import ChildService
  import BookQueries
  import GoBookService
  import BackendBookService
  import ApiBookHandlers
  import GoChildHandlers

  /** `BookResponse` of this backend: six fields copied from the record. */
  datatype BookResponse = BookResponse(id: nat, title: string, author: string, dateRead: string, childId: nat,
                                       createdAt: int)

  function BookResponseOf(b: Book): BookResponse
  {
    BookResponse(b.id, b.title, b.author, b.dateRead, b.childId, b.createdAt)
  }

  /** The responses for `books`, position by position. */
  function ResponsesOf(books: seq<Book>): (r: seq<BookResponse>)
    ensures |r| == |books|
  {
    seq(|books|, i requires 0 <= i < |books| => BookResponseOf(books[i]))
  }

  /** The append loop of the list routes: element `i` describes record
      `i`, and no record at all gives `null`, not an empty list. */
  method AppendResponses(books: seq<Book>) returns (r: JsonList<BookResponse>)
    ensures r == ListOf(ResponsesOf(books))
    ensures r.Null? <==> books == []
    ensures forall i :: 0 <= i < |books| ==> Elements(r)[i] == BookResponseOf(books[i])
  {
    r := Null;
    for i := 0 to |books|
      invariant r.Null? <==> i == 0
      invariant |Elements(r)| == i
      invariant forall j :: 0 <= j < i ==> Elements(r)[j] == BookResponseOf(books[j])
    {
      r := Items(Elements(r) + [BookResponseOf(books[i])]);
    }
    assert Elements(r) == ResponsesOf(books);
  }

  /** Unlike the `api` conversion, which answers an empty list with `[]`,
      an empty list here is answered with `null`; a one-record list is the
      one response. */
  lemma EmptyListIsNull(b: Book)
    ensures ListOf(ResponsesOf([])) == Null && ApiBookHandlers.ResponsesOf([], map[]) == []
    ensures ListOf(ResponsesOf([b])) == Items([BookResponseOf(b)])
  {
    assert ResponsesOf([b])[0] == BookResponseOf(b);
  }

  /** The body of a create. All four fields are `binding:"required"`, so an
      empty text or a zero child id does not bind. */
  datatype CreateBookBody = CreateBookBody(title: string, author: string, dateRead: string, childId: nat)

  predicate CreateBookBodyBinds(body: Option<CreateBookBody>)
  {
    body.Some? && body.value.title != "" && body.value.author != "" && body.value.dateRead != ""
    && body.value.childId != 0
  }

  /** The body of an update: the three texts, each required. */
  datatype UpdateBookBody = UpdateBookBody(title: string, author: string, dateRead: string)

  predicate UpdateBookBodyBinds(body: Option<UpdateBookBody>)
  {
    body.Some? && body.value.title != "" && body.value.author != "" && body.value.dateRead != ""
  }

  /** What both create routes do once the child is known: EDIT on that
      child, then the record is written with the body's texts. */
  method CreateChecked(db: Db, userId: nat, body: CreateBookBody, childId: nat, now: int)
    returns (r: Reply<BookResponse>)
    requires db.Valid()
    modifies db`books, db`nextId
    ensures db.Valid()
    ensures var check := ApiBookHandlers.AccessCheck(db.children, db.permissions, userId, childId, Edit);
      && (check.Refused? ==> r == Refused(check.status, check.message)
                             && db.books == old(db.books) && db.nextId == old(db.nextId))
      && (check.Answered? ==>
            && r.Answered? && r.status == StatusCreated && r.value.id !in old(db.books)
            && r.value.id in db.books && db.books == old(db.books)[r.value.id := db.books[r.value.id]]
            && r.value == BookResponse(r.value.id, body.title, body.author, body.dateRead, childId, now)
            && r.value == BookResponseOf(db.books[r.value.id]))
  {
    var check := ApiBookHandlers.AccessCheck(db.children, db.permissions, userId, childId, Edit);
    if check.Refused? {
      return Refused(check.status, check.message);
    }
    var book := GoBookService.CreateBook(db, body.title, body.author, body.dateRead, childId, now);
    r := Answered(StatusCreated, BookResponseOf(book));
  }

  /** `CreateBook`: a caller, a body that binds, EDIT on the body's child;
      only then is the record written. */
  method CreateBook(db: Db, ctx: RequestContext, body: Option<CreateBookBody>, now: int)
    returns (r: Reply<BookResponse>)
    requires db.Valid()
    modifies db`books, db`nextId
    ensures db.Valid()
    ensures !GetCurrentUserID(ctx).1 ==> r == Refused(StatusUnauthorized, NoCurrentUser)
    ensures GetCurrentUserID(ctx).1 && !CreateBookBodyBinds(body) ==> r == Refused(StatusBadRequest, InvalidRequestData)
    ensures r.Refused? ==> db.books == old(db.books)
    ensures GetCurrentUserID(ctx).1 && CreateBookBodyBinds(body) ==>
      var check := ApiBookHandlers.AccessCheck(db.children, db.permissions, GetCurrentUserID(ctx).0,
                                               body.value.childId, Edit);
      && (check.Refused? ==> r == Refused(check.status, check.message))
      && (check.Answered? ==>
            && r.Answered? && r.status == StatusCreated && r.value.id !in old(db.books)
            && r.value.id in db.books && db.books == old(db.books)[r.value.id := db.books[r.value.id]]
            && r.value == BookResponse(r.value.id, body.value.title, body.value.author, body.value.dateRead,
                                       body.value.childId, now))
  {
    var (userId, ok) := GetCurrentUserID(ctx);
    if !ok {
      return Refused(StatusUnauthorized, NoCurrentUser);
    }
    if !CreateBookBodyBinds(body) {
      return Refused(StatusBadRequest, InvalidRequestData);
    }
    r := CreateChecked(db, userId, body.value, body.value.childId, now);
  }

  /** `CreateBookForChild`: the path's child replaces the body's before the
      check. The body is bound first, so it must still carry a non-zero
      child id of its own, which is then ignored. */
  method CreateBookForChild(db: Db, ctx: RequestContext, childIdParam: string, body: Option<CreateBookBody>, now: int)
    returns (r: Reply<BookResponse>)
    requires db.Valid()
    modifies db`books, db`nextId
    ensures db.Valid()
    ensures !GetCurrentUserID(ctx).1 ==> r == Refused(StatusUnauthorized, NoCurrentUser)
    ensures GetCurrentUserID(ctx).1 && ParseUint32(childIdParam).None? ==> r == Refused(StatusBadRequest, InvalidChildId)
    ensures GetCurrentUserID(ctx).1 && ParseUint32(childIdParam).Some? && !CreateBookBodyBinds(body)
      ==> r == Refused(StatusBadRequest, InvalidRequestData)
    ensures r.Refused? ==> db.books == old(db.books)
    ensures GetCurrentUserID(ctx).1 && ParseUint32(childIdParam).Some? && CreateBookBodyBinds(body) ==>
      var childId := ParseUint32(childIdParam).value;
      var check := ApiBookHandlers.AccessCheck(db.children, db.permissions, GetCurrentUserID(ctx).0, childId, Edit);
      && (check.Refused? ==> r == Refused(check.status, check.message))
      && (check.Answered? ==>
            && r.Answered? && r.status == StatusCreated && r.value.id !in old(db.books)
            && r.value.id in db.books && db.books == old(db.books)[r.value.id := db.books[r.value.id]]
            && r.value == BookResponse(r.value.id, body.value.title, body.value.author, body.value.dateRead,
                                       childId, now))
  {
    var (userId, ok) := GetCurrentUserID(ctx);
    if !ok {
      return Refused(StatusUnauthorized, NoCurrentUser);
    }
    var childId := ParseUint32(childIdParam);
    if childId.None? {
      return Refused(StatusBadRequest, InvalidChildId);
    }
    if !CreateBookBodyBinds(body) {
      return Refused(StatusBadRequest, InvalidRequestData);
    }
    r := CreateChecked(db, userId, body.value, childId.value, now);
  }

  /** `GetBookByID`: 404 before the VIEW check, as in `api`. */
  function GetBookByID(children: map<nat, Child>, permissions: map<nat, Permission>, books: map<nat, Book>,
                       ctx: RequestContext, idParam: string): (r: Reply<BookResponse>)
    ensures var guard := ApiBookHandlers.BookGuard(children, permissions, books, ctx, idParam, View);
      && (guard.Refused? ==> r == Refused(guard.status, guard.message))
      && (guard.Answered? ==> r == Answered(StatusOK, BookResponseOf(books[ParseUint32(idParam).value])))
  {
    match ApiBookHandlers.BookGuard(children, permissions, books, ctx, idParam, View)
    case Refused(status, message) => Refused(status, message)
    case Answered(_, book) => Answered(StatusOK, BookResponseOf(book))
  }

  /** `UpdateBook`: 404, then EDIT, and only then the body, so a caller
      without EDIT is refused with 403 whatever they send. Title, author and
      date are replaced; the child is kept. */
  method UpdateBook(db: Db, ctx: RequestContext, idParam: string, body: Option<UpdateBookBody>, now: int)
    returns (r: Reply<BookResponse>)
    requires db.Valid()
    modifies db`books
    ensures db.Valid()
    ensures var guard := ApiBookHandlers.BookGuard(db.children, db.permissions, old(db.books), ctx, idParam, Edit);
      && (guard.Refused? ==> r == Refused(guard.status, guard.message) && db.books == old(db.books))
      && (guard.Answered? && !UpdateBookBodyBinds(body) ==>
            r == Refused(StatusBadRequest, InvalidRequestData) && db.books == old(db.books))
      && (guard.Answered? && UpdateBookBodyBinds(body) ==>
            var updated := guard.value.(title := body.value.title, author := body.value.author,
                                        dateRead := body.value.dateRead, updatedAt := now);
            && db.books == old(db.books)[guard.value.id := updated]
            && r == Answered(StatusOK, BookResponseOf(updated)))
  {
    var guard := ApiBookHandlers.BookGuard(db.children, db.permissions, db.books, ctx, idParam, Edit);
    if guard.Refused? {
      return Refused(guard.status, guard.message);
    }
    if !UpdateBookBodyBinds(body) {
      return Refused(StatusBadRequest, InvalidRequestData);
    }
    // The guard has found the record, so the update cannot miss it.
    var updated := GoBookService.UpdateBook(db, ParseUint32(idParam).value, body.value.title, body.value.author,
                                            body.value.dateRead, now);
    r := Answered(StatusOK, BookResponseOf(updated.value));
  }

  /** `DeleteBook`: 404, then EDIT; only then is the record removed. */
  method DeleteBook(db: Db, ctx: RequestContext, idParam: string) returns (r: Reply<()>)
    requires db.Valid()
    modifies db`books
    ensures db.Valid()
    ensures var guard := ApiBookHandlers.BookGuard(db.children, db.permissions, old(db.books), ctx, idParam, Edit);
      && (guard.Refused? ==> r == Refused(guard.status, guard.message) && db.books == old(db.books))
      && (guard.Answered? ==> r == Answered(StatusNoContent, ()) && db.books == old(db.books) - {guard.value.id})
  {
    var guard := ApiBookHandlers.BookGuard(db.children, db.permissions, db.books, ctx, idParam, Edit);
    if guard.Refused? {
      return Refused(guard.status, guard.message);
    }
    var _ := BackendBookService.DeleteBook(db, ParseUint32(idParam).value);
    r := Answered(StatusNoContent, ());
  }

  /** `GetBooks`: every visible record, or with a `childId` query VIEW on
      that child and its records. */
  method GetBooks(db: Db, ctx: RequestContext, childIdParam: string) returns (r: Reply<JsonList<BookResponse>>)
    requires db.Valid()
    ensures !GetCurrentUserID(ctx).1 ==> r == Refused(StatusUnauthorized, NoCurrentUser)
    ensures GetCurrentUserID(ctx).1 && childIdParam == "" ==>
      r == Answered(StatusOK, ListOf(ResponsesOf(BookQueries.GetBooksForUser(db.children, db.permissions, db.books,
                                                                              GetCurrentUserID(ctx).0))))
    ensures GetCurrentUserID(ctx).1 && childIdParam != "" ==>
      var guard := PermissionGuard(db.children, db.permissions, ctx, childIdParam, View);
      && (guard.Refused? ==> r == Refused(guard.status, guard.message))
      && (guard.Answered? ==>
            r == Answered(StatusOK, ListOf(ResponsesOf(BookQueries.GetBooksByChild(db.books, guard.value.1)))))
  {
    var (userId, ok) := GetCurrentUserID(ctx);
    if !ok {
      return Refused(StatusUnauthorized, NoCurrentUser);
    }
    if childIdParam != "" {
      var guard := PermissionGuard(db.children, db.permissions, ctx, childIdParam, View);
      if guard.Refused? {
        return Refused(guard.status, guard.message);
      }
      var list := AppendResponses(BookQueries.GetBooksByChild(db.books, guard.value.1));
      return Answered(StatusOK, list);
    }
    var list := AppendResponses(BookQueries.GetBooksForUser(db.children, db.permissions, db.books, userId));
    r := Answered(StatusOK, list);
  }

  datatype BooksOrCount = Books(books: JsonList<BookResponse>) | Count(count: nat)

  /** `GetBooksForChild`: VIEW on the path's child, checked directly
      against the store, then the listing or the count the query asks for;
      a month outside 1 to 12 is a 400. */
  method GetBooksForChild(db: Db, ctx: RequestContext, childIdParam: string, year: string, month: string,
                          countOnly: string) returns (r: Reply<BooksOrCount>)
    requires db.Valid()
    ensures var guard := PermissionGuard(db.children, db.permissions, ctx, childIdParam, View);
      var q := ApiBookHandlers.ChildBooksQueryOf(year, month, countOnly);
      && (guard.Refused? ==> r == Refused(guard.status, guard.message))
      && (guard.Answered? && q.Err? ==> r == Refused(StatusBadRequest, InvalidYearMonth))
      && (guard.Answered? && q.Ok? ==>
            var childId := guard.value.1;
            r == Answered(StatusOK, match q.value
              case AllBooks => Books(ListOf(ResponsesOf(BookQueries.GetBooksByChild(db.books, childId))))
              case MonthBooks(y, m) =>
                Books(ListOf(ResponsesOf(BookQueries.GetBooksByChildAndMonth(db.books, childId, y, m))))
              case MonthCount(y, m) => Count(BookQueries.GetBookCountByChildAndMonth(db.books, childId, y, m))))
  {
    var guard := PermissionGuard(db.children, db.permissions, ctx, childIdParam, View);
    if guard.Refused? {
      return Refused(guard.status, guard.message);
    }
    var childId := guard.value.1;
    var q := ApiBookHandlers.ChildBooksQueryOf(year, month, countOnly);
    if q.Err? {
      return Refused(StatusBadRequest, q.message);
    }
    match q.value {
      case AllBooks =>
        var list := AppendResponses(BookQueries.GetBooksByChild(db.books, childId));
        r := Answered(StatusOK, Books(list));
      case MonthBooks(y, m) =>
        var list := AppendResponses(BookQueries.GetBooksByChildAndMonth(db.books, childId, y, m));
        r := Answered(StatusOK, Books(list));
      case MonthCount(y, m) =>
        r := Answered(StatusOK, Count(BookQueries.GetBookCountByChildAndMonth(db.books, childId, y, m)));
    }
  }

  /** A count answer is the length of the month list the same query would
      give without `count_only`. */
  lemma CountIsListLength(books: map<nat, Book>, childId: nat, year: string, month: string)
    requires BooksKeyed(books)
    requires ApiBookHandlers.ChildBooksQueryOf(year, month, "true").Ok?
    ensures var q := ApiBookHandlers.ChildBooksQueryOf(year, month, "true").value;
      q.MonthCount? ==>
        ApiBookHandlers.ChildBooksQueryOf(year, month, "false") == Ok(ApiBookHandlers.MonthBooks(q.year, q.month))
        && BookQueries.GetBookCountByChildAndMonth(books, childId, q.year, q.month)
           == |Elements(ListOf(ResponsesOf(BookQueries.GetBooksByChildAndMonth(books, childId, q.year, q.month))))|
  {
    var q := ApiBookHandlers.ChildBooksQueryOf(year, month, "true").value;
    if q.MonthCount? {
      BookQueries.CountMatchesList(books, childId, q.year, q.month);
    }
  }

  /** One child's part of the report. */
  datatype ChildReport = ChildReport(child: GoChildHandlers.ChildResponse, books: JsonList<BookResponse>,
                                     totalBooks: nat)

  /** A child's report entry: its details, its records (`null` when there
      are none), and their number. */
  function ChildReportOf(child: Child, books: map<nat, Book>, month: Option<(int, int)>): (r: ChildReport)
    requires BooksKeyed(books)
    ensures r.totalBooks == |Elements(r.books)| == |ApiBookHandlers.ReportBooks(books, child.id, month)|
    ensures r.books.Null? <==> r.totalBooks == 0
    ensures r.child == GoChildHandlers.ChildResponseOf(child)
  {
    var list := ListOf(ResponsesOf(ApiBookHandlers.ReportBooks(books, child.id, month)));
    ChildReport(GoChildHandlers.ChildResponseOf(child), list, |Elements(list)|)
  }

  /** The body of the report loop for one child: its records through the
      append loop, and their number. */
  method ChildEntry(child: Child, books: map<nat, Book>, month: Option<(int, int)>) returns (entry: ChildReport)
    requires BooksKeyed(books)
    ensures entry == ChildReportOf(child, books, month)
  {
    var list := AppendResponses(ApiBookHandlers.ReportBooks(books, child.id, month));
    entry := ChildReport(GoChildHandlers.ChildResponseOf(child), list, |Elements(list)|);
  }

  /** The report loop, with the month checked inside it once per child. */
  method ReportLoop(kids: seq<Child>, books: map<nat, Book>, year: string, month: string)
    returns (r: Reply<JsonList<ChildReport>>)
    requires BooksKeyed(books)
    ensures ApiBookHandlers.ReportMonth(year, month).Err? && kids != [] ==> r == Refused(StatusBadRequest, InvalidYearMonth)
    ensures kids == [] ==> r == Answered(StatusOK, Null)
    ensures ApiBookHandlers.ReportMonth(year, month).Ok? ==>
      && r.Answered? && r.status == StatusOK && (r.value.Null? <==> kids == []) && |Elements(r.value)| == |kids|
      && forall i :: 0 <= i < |kids| ==>
           Elements(r.value)[i] == ChildReportOf(kids[i], books, ApiBookHandlers.ReportMonth(year, month).value)
  {
    var reports: JsonList<ChildReport> := Null;
    var i := 0;
    while i < |kids|
      invariant 0 <= i <= |kids| && |Elements(reports)| == i && (reports.Null? <==> i == 0)
      invariant ApiBookHandlers.ReportMonth(year, month).Err? ==> i == 0
      invariant ApiBookHandlers.ReportMonth(year, month).Ok? ==> forall j :: 0 <= j < i ==>
        Elements(reports)[j] == ChildReportOf(kids[j], books, ApiBookHandlers.ReportMonth(year, month).value)
    {
      var child := kids[i];
      var filter := ApiBookHandlers.ReportMonth(year, month);
      if filter.Err? {
        return Refused(StatusBadRequest, filter.message);
      }
      var entry := ChildEntry(child, books, filter.value);
      reports := Items(Elements(reports) + [entry]);
      i := i + 1;
    }
    r := Answered(StatusOK, reports);
  }

  /** `GetMyBooksReport`: one entry per child the caller may see; with no
      such child the list is `null` and the month is never checked. */
  method GetMyBooksReport(db: Db, ctx: RequestContext, year: string, month: string)
    returns (r: Reply<JsonList<ChildReport>>)
    requires db.Valid()
    ensures !GetCurrentUserID(ctx).1 ==> r == Refused(StatusUnauthorized, NoCurrentUser)
    ensures GetCurrentUserID(ctx).1 ==>
      var kids := ChildService.GetChildrenWithPermission(db.children, db.permissions, GetCurrentUserID(ctx).0);
      && (ApiBookHandlers.ReportMonth(year, month).Err? && kids != [] ==> r == Refused(StatusBadRequest, InvalidYearMonth))
      && (kids == [] ==> r == Answered(StatusOK, Null))
      && (ApiBookHandlers.ReportMonth(year, month).Ok? ==>
            && r.Answered? && |Elements(r.value)| == |kids|
            && forall i :: 0 <= i < |kids| ==>
                 Elements(r.value)[i] == ChildReportOf(kids[i], db.books, ApiBookHandlers.ReportMonth(year, month).value))
  {
    var (userId, ok) := GetCurrentUserID(ctx);
    if !ok {
      return Refused(StatusUnauthorized, NoCurrentUser);
    }
    var kids := ChildService.GetChildrenWithPermission(db.children, db.permissions, userId);
    r := ReportLoop(kids, db.books, year, month);
  }
}

/** Writing reading records in `backend/services/book.go`: a record refers
    to a shared catalogue entry or carries its own title and author, and a
    child may not record the same whole book twice. The `api` handlers call
    the same operations. */
module BackendBookService {
  import opened Common
  import opened Records
  import opened Store

  datatype CreateBookRequest = CreateBookRequest(
    childId: nat,
    sharedBookId: Option<nat>,
    title: string,
    author: string,
    isbn: string,
    isCustomBook: bool,
    dateRead: string,
    lexileLevel: string,
    isPartial: bool,
    partialComment: string)

  datatype CreateCustomBookRequest = CreateCustomBookRequest(
    childId: nat,
    title: string,
    author: string,
    isbn: string,
    dateRead: string,
    lexileLevel: string,
    isPartial: bool,
    partialComment: string)

  datatype UpdateBookRequest = UpdateBookRequest(
    title: string,
    author: string,
    isbn: string,
    dateRead: string,
    lexileLevel: string,
    isPartial: bool,
    partialComment: string)

  const InvalidBookRequest := "invalid book request: must specify either shared book ID or custom book"
  const AlreadyRead := "child has already read this book"

  /** A whole (non-partial) reading of the shared entry by the child. */
  predicate HasWholeSharedRead(books: map<nat, Book>, childId: nat, sharedBookId: nat)
  {
    exists k :: k in books && books[k].childId == childId && books[k].sharedBookId == Some(sharedBookId)
      && !books[k].isPartial
  }

  /** A whole reading whose custom title and author match. */
  predicate HasWholeCustomRead(books: map<nat, Book>, childId: nat, title: string, author: string)
  {
    exists k :: k in books && books[k].childId == childId && books[k].customTitle == title
      && books[k].customAuthor == author && !books[k].isPartial
  }

  /** Two whole readings of the same book by the same child. */
  predicate SameWholeRead(a: Book, b: Book)
  {
    && !a.isPartial && !b.isPartial && a.childId == b.childId
    && (|| (a.sharedBookId.Some? && a.sharedBookId == b.sharedBookId)
        || (a.sharedBookId.None? && b.sharedBookId.None?
            && a.customTitle == b.customTitle && a.customAuthor == b.customAuthor))
  }

  /** What the duplicate checks protect: at most one whole reading of each
      book per child (partial readings are exempt). */
  predicate NoDuplicateReads(books: map<nat, Book>)
  {
    forall i, j :: i in books && j in books && SameWholeRead(books[i], books[j]) ==> i == j
  }

  /** When `CreateBook` stores the request: a partial reading always, a
      shared entry the child has not read in full, or a custom book whose
      title and author the child has not read in full. */
  predicate CreateAccepted(books: map<nat, Book>, req: CreateBookRequest)
  {
    || req.isPartial
    || (req.sharedBookId.Some? && !HasWholeSharedRead(books, req.childId, req.sharedBookId.value))
    || (req.sharedBookId.None? && req.isCustomBook && !HasWholeCustomRead(books, req.childId, req.title, req.author))
  }

  /** The message of a refused `CreateBook`: a request naming neither a
      shared entry nor a custom book is invalid, any other is a repeat. */
  function CreateRefusal(req: CreateBookRequest): string
  {
    if req.sharedBookId.None? && !req.isCustomBook then InvalidBookRequest else AlreadyRead
  }

  /** The record `CreateBook` stores under `id`: the custom fields only for
      a custom book, the shared entry's id as given. */
  function RecordOf(req: CreateBookRequest, id: nat, now: int): Book
  {
    Book(id, "", "", req.dateRead, req.childId, req.sharedBookId,
         if req.isCustomBook then req.title else "",
         if req.isCustomBook then req.author else "",
         if req.isCustomBook then req.isbn else "",
         req.lexileLevel, req.isPartial, req.partialComment, now, now)
  }

  /** Partial readings skip every check; otherwise a shared entry is checked
      by its id and a custom book by title and author, and a request that
      names neither is refused. */
  method CreateBook(db: Db, req: CreateBookRequest, now: int) returns (r: Result<Book>)
    requires db.Valid()
    modifies db`books, db`nextId
    ensures db.Valid()
    ensures !req.isPartial && req.sharedBookId.None? && !req.isCustomBook ==> r == Err(InvalidBookRequest)
    ensures (!req.isPartial && req.sharedBookId.Some?
             && HasWholeSharedRead(old(db.books), req.childId, req.sharedBookId.value)) ==> r == Err(AlreadyRead)
    ensures (!req.isPartial && req.sharedBookId.None? && req.isCustomBook
             && HasWholeCustomRead(old(db.books), req.childId, req.title, req.author)) ==> r == Err(AlreadyRead)
    ensures r.Ok? <==> CreateAccepted(old(db.books), req)
    ensures r.Err? ==> r.message == CreateRefusal(req) && db.books == old(db.books) && db.nextId == old(db.nextId)
    ensures r.Ok? ==> (r.value.id == old(db.nextId) && r.value.id !in old(db.books)
      && db.books == old(db.books)[r.value.id := r.value])
    ensures r.Ok? ==> r.value == RecordOf(req, r.value.id, now)
    ensures r.Ok? ==> (r.value.childId == req.childId && r.value.sharedBookId == req.sharedBookId
      && r.value.dateRead == req.dateRead && r.value.isPartial == req.isPartial
      && (req.isCustomBook ==> r.value.customTitle == req.title && r.value.customAuthor == req.author))
    ensures NoDuplicateReads(old(db.books)) ==> NoDuplicateReads(db.books)
  {
    if !req.isPartial {
      if req.sharedBookId.Some? {
        if HasWholeSharedRead(db.books, req.childId, req.sharedBookId.value) {
          return Err(AlreadyRead);
        }
      } else if req.isCustomBook {
        if HasWholeCustomRead(db.books, req.childId, req.title, req.author) {
          return Err(AlreadyRead);
        }
      } else {
        return Err(InvalidBookRequest);
      }
    }
    var id := db.NewId();
    var book := RecordOf(req, id, now);
    InsertKeepsNoDuplicates(db.books, book);
    db.books := db.books[id := book];
    r := Ok(book);
  }

  /** Adding a record that matches no existing whole reading keeps the rule. */
  lemma InsertKeepsNoDuplicates(books: map<nat, Book>, book: Book)
    requires book.id !in books
    requires forall k :: k in books ==> !SameWholeRead(book, books[k]) && !SameWholeRead(books[k], book)
    ensures NoDuplicateReads(books) ==> NoDuplicateReads(books[book.id := book])
  {
  }

  /** The record `CreateCustomBook` stores under `id`: no shared entry,
      and the request's own title, author and ISBN. */
  function CustomRecordOf(req: CreateCustomBookRequest, id: nat, now: int): Book
  {
    Book(id, "", "", req.dateRead, req.childId, None, req.title, req.author,
         req.isbn, req.lexileLevel, req.isPartial, req.partialComment, now, now)
  }

  /** Custom books are checked by title and author unless partial. */
  method CreateCustomBook(db: Db, req: CreateCustomBookRequest, now: int) returns (r: Result<Book>)
    requires db.Valid()
    modifies db`books, db`nextId
    ensures db.Valid()
    ensures r.Err? <==> !req.isPartial && HasWholeCustomRead(old(db.books), req.childId, req.title, req.author)
    ensures r.Err? ==> r.message == AlreadyRead && db.books == old(db.books)
    ensures r.Ok? ==> r.value.id !in old(db.books) && db.books == old(db.books)[r.value.id := r.value]
    ensures r.Ok? ==> r.value == CustomRecordOf(req, r.value.id, now)
    ensures r.Ok? ==> (r.value.childId == req.childId && r.value.sharedBookId.None?
      && r.value.customTitle == req.title && r.value.customAuthor == req.author && r.value.isPartial == req.isPartial)
    ensures NoDuplicateReads(old(db.books)) ==> NoDuplicateReads(db.books)
  {
    if !req.isPartial && HasWholeCustomRead(db.books, req.childId, req.title, req.author) {
      return Err(AlreadyRead);
    }
    var id := db.NewId();
    var book := CustomRecordOf(req, id, now);
    InsertKeepsNoDuplicates(db.books, book);
    db.books := db.books[id := book];
    r := Ok(book);
  }

  /** The edit a record receives: date, level and partial details always;
      title, author and ISBN only on a custom record and only when given. */
  function ApplyBookUpdate(b: Book, req: UpdateBookRequest, now: int): (r: Book)
    ensures r.id == b.id && r.childId == b.childId && r.sharedBookId == b.sharedBookId
    ensures r.title == b.title && r.author == b.author && r.createdAt == b.createdAt && r.updatedAt == now
    ensures r.dateRead == req.dateRead && r.lexileLevel == req.lexileLevel
    ensures r.isPartial == req.isPartial && r.partialComment == req.partialComment
    ensures b.sharedBookId.Some? ==>
      (r.customTitle == b.customTitle && r.customAuthor == b.customAuthor && r.customIsbn == b.customIsbn)
    ensures r.customTitle == (if b.sharedBookId.None? && req.title != "" then req.title else b.customTitle)
    ensures r.customAuthor == (if b.sharedBookId.None? && req.author != "" then req.author else b.customAuthor)
    ensures r.customIsbn == (if b.sharedBookId.None? && req.isbn != "" then req.isbn else b.customIsbn)
  {
    var b1 := b.(dateRead := req.dateRead, lexileLevel := req.lexileLevel, isPartial := req.isPartial,
                 partialComment := req.partialComment, updatedAt := now);
    if b.sharedBookId.Some? then b1
    else
      b1.(customTitle := if req.title != "" then req.title else b.customTitle,
          customAuthor := if req.author != "" then req.author else b.customAuthor,
          customIsbn := if req.isbn != "" then req.isbn else b.customIsbn)
  }

  /** Sending the same edit twice changes nothing the second time. */
  lemma ApplyBookUpdateIdempotent(b: Book, req: UpdateBookRequest, now: int)
    ensures ApplyBookUpdate(ApplyBookUpdate(b, req, now), req, now) == ApplyBookUpdate(b, req, now)
  {
  }

  method UpdateBook(db: Db, id: nat, req: UpdateBookRequest, now: int) returns (r: Result<Book>)
    requires db.Valid()
    modifies db`books
    ensures db.Valid()
    ensures id !in old(db.books) ==> r == Err("book not found") && db.books == old(db.books)
    ensures id in old(db.books) ==>
      (r == Ok(ApplyBookUpdate(old(db.books)[id], req, now)) && db.books == old(db.books)[id := r.value])
  {
    if id !in db.books {
      return Err("book not found");
    }
    var book := ApplyBookUpdate(db.books[id], req, now);
    db.books := db.books[id := book];
    r := Ok(book);
  }

  /** The same in `backend-go/services/book.go`. */
  method DeleteBook(db: Db, id: nat) returns (r: Result<()>)
    requires db.Valid()
    modifies db`books
    ensures db.Valid()
    ensures r.Ok? <==> id in old(db.books)
    ensures r.Err? ==> r.message == "book not found"
    ensures db.books == old(db.books) - {id}
  {
    if id !in db.books {
      return Err("book not found");
    }
    db.books := db.books - {id};
    r := Ok(());
  }

  /** `First(&book, id)` with the shared entry preloaded. */
  function GetBookByID(books: map<nat, Book>, id: nat): (r: Result<Book>)
    ensures r.Ok? <==> id in books
    ensures r.Ok? ==> r.value == books[id]
    ensures r.Err? ==> r.message == "book not found"
  {
    if id in books then Ok(books[id]) else Err("book not found")
  }
}

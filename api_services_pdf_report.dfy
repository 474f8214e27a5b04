/** The monthly reading report of `api/services/pdf_report.go`: which
    records of a child it lists and in what order, what each entry shows,
    how long texts are cut to fit a cell, and where on which page each
    entry is drawn (four columns by eight rows, 32 to a page). Drawing,
    cover downloads and the file written are not modelled. */
module PdfReport {
  import opened Common
  import opened Text
  import opened Records
  import opened Store
  import opened MonthWindow
  import BookQueries
  import ApiBookHandlers

  // ---------------------------------------------------------------- text

  const Ellipsis: seq<Byte> := [46, 46, 46]

  /** `truncateString`: a text of at most `maxLen` bytes is kept; a longer
      one is cut to `maxLen - 3` bytes followed by "...", so exactly
      `maxLen` bytes. A `maxLen` below 3 would make Go's slice panic. */
  function TruncateString(s: seq<Byte>, maxLen: nat): (r: seq<Byte>)
    requires 3 <= maxLen
    ensures |r| <= maxLen
    ensures |s| <= maxLen ==> r == s
    ensures |s| > maxLen ==> |r| == maxLen && r == s[..maxLen - 3] + Ellipsis
  {
    if |s| <= maxLen then s else s[..maxLen - 3] + Ellipsis
  }

  /** Truncating twice to the same width changes nothing more. */
  lemma TruncateIdempotent(s: seq<Byte>, maxLen: nat)
    requires 3 <= maxLen
    ensures TruncateString(TruncateString(s, maxLen), maxLen) == TruncateString(s, maxLen)
  {
  }

  /** A truncated text starts like the original one: it keeps a prefix of
      at least `maxLen - 3` bytes, or all of it. */
  lemma TruncateKeepsPrefix(s: seq<Byte>, maxLen: nat)
    requires 3 <= maxLen
    ensures var r := TruncateString(s, maxLen);
      var kept := if |s| <= maxLen then |s| else maxLen - 3;
      kept <= |r| && r[..kept] == s[..kept]
  {
  }

  // ---------------------------------------------------------------- entries

  /** One entry of the report (`BookForPDF` without the local cover path). */
  datatype PdfBook = PdfBook(
    title: string,
    author: string,
    isbn: string,
    lexileLevel: string,
    dateRead: string,
    coverUrl: string,
    isPartial: bool,
    partialComment: string)

  /** A record as the report shows it: the loaded catalogue entry's title,
      author, ISBN and cover when there is one; the custom fields and no
      cover otherwise. */
  function PdfBookOf(b: Book, sharedBooks: map<nat, SharedBook>): (r: PdfBook)
    ensures r.lexileLevel == b.lexileLevel && r.dateRead == b.dateRead
    ensures r.isPartial == b.isPartial && r.partialComment == b.partialComment
  {
    var base := PdfBook("", "", "", b.lexileLevel, b.dateRead, "", b.isPartial, b.partialComment);
    match ApiBookHandlers.Preloaded(b, sharedBooks)
    case Some(shared) => base.(title := shared.title, author := shared.author, isbn := shared.isbn,
                               coverUrl := shared.coverUrl)
    case None => base.(title := b.customTitle, author := b.customAuthor, isbn := b.customIsbn)
  }

  /** The report shows a record with the same title, author, ISBN and
      cover as the book list of `api/handlers/book.go` does, and a custom
      record never has a cover. */
  lemma ReportAgreesWithBookList(b: Book, sharedBooks: map<nat, SharedBook>)
    ensures var p := PdfBookOf(b, sharedBooks);
      var resp := ApiBookHandlers.BookToResponse(b, ApiBookHandlers.Preloaded(b, sharedBooks));
      && p.title == resp.title && p.author == resp.author && p.isbn == resp.isbn && p.coverUrl == resp.coverUrl
      && p.dateRead == resp.dateRead && p.lexileLevel == resp.lexileLevel
      && (resp.isCustomBook ==> p.coverUrl == "")
  {
  }

  /** What the text area of a cell holds, as bytes: the title cut to 25,
      the author to 30, the lexile line when there is a level, the ISBN
      line (ISBN cut to 15) when there is an ISBN, and the note (cut to
      30) for a partial read with a comment. The date line is not
      modelled. */
  datatype CellText = CellText(
    title: seq<Byte>,
    author: seq<Byte>,
    lexile: Option<seq<Byte>>,
    isbn: Option<seq<Byte>>,
    note: Option<seq<Byte>>)

  const LexileLabel: seq<Byte> := Utf8("Lexile: ")
  const IsbnLabel: seq<Byte> := Utf8("ISBN: ")
  const NoteLabel: seq<Byte> := Utf8("Note: ")

  function CellTextOf(p: PdfBook): (r: CellText)
    ensures |r.title| <= 25 && |r.author| <= 30
    ensures r.lexile.Some? <==> p.lexileLevel != ""
    ensures r.isbn.Some? <==> p.isbn != ""
    ensures r.isbn.Some? ==> |r.isbn.value| <= |IsbnLabel| + 15
    ensures r.note.Some? <==> p.isPartial && p.partialComment != ""
    ensures r.note.Some? ==> |r.note.value| <= |NoteLabel| + 30
  {
    var lexile := if p.lexileLevel != "" then Some(LexileLabel + Utf8(p.lexileLevel)) else None;
    var isbn := if p.isbn != "" then Some(IsbnLabel + TruncateString(Utf8(p.isbn), 15)) else None;
    var note := if p.isPartial && p.partialComment != "" then Some(NoteLabel + TruncateString(Utf8(p.partialComment), 30))
                else None;
    CellText(TruncateString(Utf8(p.title), 25), TruncateString(Utf8(p.author), 30), lexile, isbn, note)
  }

  // ---------------------------------------------------------------- selection

  /** `ORDER BY date_read ASC`: no record is followed by an earlier date. */
  predicate DateAscending(bs: seq<Book>)
  {
    forall i, j :: 0 <= i < j < |bs| ==> LexLessEq(bs[i].dateRead, bs[j].dateRead)
  }

  function Reverse<T>(s: seq<T>): (r: seq<T>)
    ensures |r| == |s| && forall i :: 0 <= i < |s| ==> r[i] == s[|s| - 1 - i]
  {
    seq(|s|, i requires 0 <= i < |s| => s[|s| - 1 - i])
  }

  /** The month's records of one child, oldest first: those dated from
      day 1 of the month up to the end of its last day. */
  function BooksForMonth(books: map<nat, Book>, childId: nat, year: int, month: int): (r: seq<Book>)
    requires BooksKeyed(books)
    ensures DateAscending(r)
    ensures forall b :: b in r <==> (b.id in books && books[b.id] == b && b.childId == childId
      && InMonth(b.dateRead, year, month))
    ensures |r| == BookQueries.GetBookCountByChildAndMonth(books, childId, year, month)
  {
    var newest := BookQueries.GetBooksByChildAndMonth(books, childId, year, month);
    ReverseOfNewestFirst(newest);
    BookQueries.CountMatchesList(books, childId, year, month);
    Reverse(newest)
  }

  /** Reading a newest-first list backwards gives an oldest-first list of
      the same records. */
  lemma ReverseOfNewestFirst(newest: seq<Book>)
    requires BookQueries.DateDescending(newest)
    ensures DateAscending(Reverse(newest))
    ensures forall b :: b in Reverse(newest) <==> b in newest
  {
    var r := Reverse(newest);
    forall b ensures b in r <==> b in newest {
      if b in newest {
        var i :| 0 <= i < |newest| && newest[i] == b;
        assert r[|newest| - 1 - i] == b;
      }
    }
  }

  /** The loop of `getBooksForMonth`: one entry per record, in order. */
  method ConvertForPdf(dbBooks: seq<Book>, sharedBooks: map<nat, SharedBook>) returns (books: seq<PdfBook>)
    ensures |books| == |dbBooks|
    ensures forall i :: 0 <= i < |dbBooks| ==> books[i] == PdfBookOf(dbBooks[i], sharedBooks)
  {
    books := [];
    for i := 0 to |dbBooks|
      invariant |books| == i
      invariant forall j :: 0 <= j < i ==> books[j] == PdfBookOf(dbBooks[j], sharedBooks)
    {
      var book := dbBooks[i];
      books := books + [PdfBookOf(book, sharedBooks)];
    }
  }

  // ---------------------------------------------------------------- layout

  const Columns: nat := 4
  const Rows: nat := 8
  const PerPage: nat := 32

  /** Where an entry is drawn: the page (counting from 0) and its cell. */
  datatype Cell = Cell(page: nat, column: nat, row: nat)

  /** The cell of entry `i`. Every position on every page has exactly one
      entry index: `i` is page * 32 + row * 4 + column. */
  function CellOf(i: nat): (c: Cell)
    ensures c.column < Columns && c.row < Rows
    ensures i == c.page * PerPage + c.row * Columns + c.column
  {
    var slot := i % PerPage;
    Cell(i / PerPage, slot % Columns, slot / Columns)
  }

  /** Two entries never share a cell. */
  lemma CellsDistinct(i: nat, j: nat)
    requires i != j
    ensures CellOf(i) != CellOf(j)
  {
  }

  /** A new page is started exactly before entries 32, 64, ...; every
      other entry goes on the page of the one before it. */
  lemma PageBreaks(i: nat)
    requires i > 0
    ensures i % PerPage == 0 ==> CellOf(i).page == CellOf(i - 1).page + 1 && CellOf(i) == Cell(CellOf(i).page, 0, 0)
    ensures i % PerPage != 0 ==> CellOf(i).page == CellOf(i - 1).page
  {
    var c, p := CellOf(i), CellOf(i - 1);
    assert i - 1 == p.page * PerPage + p.row * Columns + p.column;
    assert 0 <= p.row * Columns + p.column < PerPage;
    assert 0 <= c.row * Columns + c.column < PerPage;
  }

  /** The pages a report of `count` entries has: the first one always, and
      one more per 32 entries after the first. */
  function PageCount(count: nat): (n: nat)
    ensures n >= 1
    ensures count > 0 ==> (n - 1) * PerPage < count <= n * PerPage
  {
    if count == 0 then 1 else (count - 1) / PerPage + 1
  }

  /** The drawing loop of `createPDF`, without the drawing: the page
      count it reaches and the cell of each entry. */
  method LayOut(count: nat) returns (pages: nat, cells: seq<Cell>)
    ensures pages == PageCount(count)
    ensures |cells| == count && forall i :: 0 <= i < count ==> cells[i] == CellOf(i)
    ensures forall i :: 0 <= i < count ==> cells[i].page < pages
  {
    pages := 1;
    cells := [];
    for i := 0 to count
      invariant |cells| == i && pages == PageCount(i)
      invariant forall j :: 0 <= j < i ==> cells[j] == CellOf(j) && cells[j].page < pages
    {
      if i > 0 && i % PerPage == 0 {
        pages := pages + 1;
      }
      var bookIndex := i % PerPage;
      cells := cells + [Cell(pages - 1, bookIndex % Columns, bookIndex / Columns)];
    }
  }

  // ---------------------------------------------------------------- report

  /** What the report is built from. */
  datatype MonthlyReport = MonthlyReport(child: Child, books: seq<PdfBook>, pages: nat, cells: seq<Cell>)

  /** `GenerateMonthlyBooksPDF` up to the drawing: the child must exist
      (gorm's "record not found" otherwise); then the month's records,
      oldest first, and where each is drawn. */
  method GenerateMonthlyBooks(db: Db, childId: nat, year: int, month: int) returns (r: Result<MonthlyReport>)
    requires db.Valid()
    ensures childId !in db.children <==> r == Err("record not found")
    ensures r.Ok? ==>
      var rows := BooksForMonth(db.books, childId, year, month);
      && r.value.child == db.children[childId]
      && |r.value.books| == |rows| == |r.value.cells|
      && (forall i :: 0 <= i < |rows| ==> r.value.books[i] == PdfBookOf(rows[i], db.sharedBooks))
      && (forall i :: 0 <= i < |rows| ==> r.value.cells[i] == CellOf(i))
      && r.value.pages == PageCount(|rows|)
  {
    if childId !in db.children {
      return Err("record not found");
    }
    var rows := BooksForMonth(db.books, childId, year, month);
    var books := ConvertForPdf(rows, db.sharedBooks);
    var pages, cells := LayOut(|books|);
    r := Ok(MonthlyReport(db.children[childId], books, pages, cells));
  }
}

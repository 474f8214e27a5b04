/** Writing reading records in `backend-go/services/book.go`: a record is a
    title, an author, a date and a child, with no duplicate check. Deletion
    and the queries are shared with the `backend` variant. */
module GoBookService {
  import opened Common
  import opened Records
  import opened Store

  method CreateBook(db: Db, title: string, author: string, dateRead: string, childId: nat, now: int)
    returns (book: Book)
    requires db.Valid()
    modifies db`books, db`nextId
    ensures db.Valid()
    ensures book.id !in old(db.books) && db.books == old(db.books)[book.id := book]
    ensures book == Book(book.id, title, author, dateRead, childId, None, "", "", "", "", false, "", now, now)
  {
    var id := db.NewId();
    book := Book(id, title, author, dateRead, childId, None, "", "", "", "", false, "", now, now);
    db.books := db.books[id := book];
  }

  /** Title, author and date are replaced; the child never changes. */
  method UpdateBook(db: Db, id: nat, title: string, author: string, dateRead: string, now: int)
    returns (r: Result<Book>)
    requires db.Valid()
    modifies db`books
    ensures db.Valid()
    ensures id !in old(db.books) ==> r == Err("book not found") && db.books == old(db.books)
    ensures id in old(db.books) ==>
      r == Ok(old(db.books)[id].(title := title, author := author, dateRead := dateRead, updatedAt := now))
    ensures r.Ok? ==> db.books == old(db.books)[id := r.value] && r.value.childId == old(db.books)[id].childId
  {
    if id !in db.books {
      return Err("book not found");
    }
    var book := db.books[id].(title := title, author := author, dateRead := dateRead, updatedAt := now);
    db.books := db.books[id := book];
    r := Ok(book);
  }
}

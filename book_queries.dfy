/** The read-only book queries that `backend/services/book.go` and
    `backend-go/services/book.go` share: a child's books newest first, the
    books a user may see, and a child's books (or their number) in one
    month. */
module BookQueries {
  import opened Common
  import opened Text
  import opened Records
  import opened Store
  import opened Collections
  import opened MonthWindow
  import ChildService

  /** `ORDER BY date_read DESC`: no book is followed by a later date. */
  predicate DateDescending(bs: seq<Book>)
  {
    forall i, j :: 0 <= i < j < |bs| ==> LexLessEq(bs[j].dateRead, bs[i].dateRead)
  }

  lemma LexLessEqTransitive(a: string, b: string, c: string)
    requires LexLessEq(a, b) && LexLessEq(b, c)
    ensures LexLessEq(a, c)
  {
    if a != b && b != c {
      LexLessTransitive(a, b, c);
    }
  }

  /** No book in `bs` was read after `d`. */
  predicate NotAfter(bs: seq<Book>, d: string)
  {
    forall j :: 0 <= j < |bs| ==> LexLessEq(bs[j].dateRead, d)
  }

  lemma ConsDescending(b: Book, bs: seq<Book>)
    requires DateDescending(bs) && NotAfter(bs, b.dateRead)
    ensures DateDescending([b] + bs)
  {
    forall i, j | 0 <= i < j < |bs| + 1
      ensures LexLessEq(([b] + bs)[j].dateRead, ([b] + bs)[i].dateRead)
    {
      if i > 0 {
        assert ([b] + bs)[i] == bs[i - 1] && ([b] + bs)[j] == bs[j - 1];
      }
    }
  }

  /** One insertion step of the sort: `b` goes before the first book read
      no later than it. */
  function InsertByDate(b: Book, sorted: seq<Book>): (r: seq<Book>)
    ensures multiset(r) == multiset(sorted) + multiset{b}
  {
    if sorted == [] then [b]
    else if LexLessEq(sorted[0].dateRead, b.dateRead) then [b] + sorted
    else
      assert sorted == [sorted[0]] + sorted[1..];
      [sorted[0]] + InsertByDate(b, sorted[1..])
  }

  /** Inserting into a newest-first list keeps it newest first, and adds no
      date later than one that bounds both the list and the new book. */
  lemma {:induction false} InsertByDateSorted(b: Book, sorted: seq<Book>, d: string)
    requires DateDescending(sorted)
    ensures DateDescending(InsertByDate(b, sorted))
    ensures NotAfter(sorted, d) && LexLessEq(b.dateRead, d) ==> NotAfter(InsertByDate(b, sorted), d)
    decreases |sorted|
  {
    if sorted == [] {
    } else if LexLessEq(sorted[0].dateRead, b.dateRead) {
      forall j | 0 <= j < |sorted| ensures LexLessEq(sorted[j].dateRead, b.dateRead) {
        if j > 0 {
          LexLessEqTransitive(sorted[j].dateRead, sorted[0].dateRead, b.dateRead);
        }
      }
      ConsDescending(b, sorted);
    } else {
      var head, tail := sorted[0], sorted[1..];
      LexLessTotal(head.dateRead, b.dateRead);
      assert NotAfter(tail, head.dateRead) by {
        forall j | 0 <= j < |tail| ensures LexLessEq(tail[j].dateRead, head.dateRead) {
          assert tail[j] == sorted[j + 1];
        }
      }
      InsertByDateSorted(b, tail, head.dateRead);
      ConsDescending(head, InsertByDate(b, tail));
      if NotAfter(sorted, d) && LexLessEq(b.dateRead, d) {
        assert NotAfter(tail, d) by {
          forall j | 0 <= j < |tail| ensures LexLessEq(tail[j].dateRead, d) {
            assert tail[j] == sorted[j + 1];
          }
        }
        InsertByDateSorted(b, tail, d);
      }
    }
  }

  /** Newest first; a permutation of its input. */
  function SortByDateDescending(bs: seq<Book>): (r: seq<Book>)
    ensures DateDescending(r) && multiset(r) == multiset(bs)
  {
    if bs == [] then []
    else
      assert bs == [bs[0]] + bs[1..];
      var rest := SortByDateDescending(bs[1..]);
      InsertByDateSorted(bs[0], rest, bs[0].dateRead);
      InsertByDate(bs[0], rest)
  }

  /** The rows whose keys are in `ids`, newest first: exactly those rows,
      each once. */
  function NewestFirst(books: map<nat, Book>, ids: set<nat>): (r: seq<Book>)
    requires forall k :: k in ids ==> k in books
    ensures DateDescending(r) && |r| == |ids|
    ensures forall b :: b in r <==> exists k :: k in ids && books[k] == b
  {
    var rows := RowsAt(books, SortedKeys(ids));
    RowsAtSortedKeys(books, ids);
    var r := SortByDateDescending(rows);
    assert forall b :: b in r <==> b in rows by {
      forall b ensures b in r <==> b in rows {
        assert b in r <==> b in multiset(r);
        assert b in rows <==> b in multiset(rows);
      }
    }
    assert |r| == |multiset(r)| == |multiset(rows)| == |rows|;
    r
  }

  function BookIdsOfChild(books: map<nat, Book>, childId: nat): set<nat>
  {
    set k | k in books && books[k].childId == childId
  }

  /** `WHERE child_id = ? ORDER BY date_read DESC` */
  function GetBooksByChild(books: map<nat, Book>, childId: nat): (r: seq<Book>)
    requires BooksKeyed(books)
    ensures DateDescending(r)
    ensures forall b :: b in r <==> b.id in books && books[b.id] == b && b.childId == childId
  {
    NewestFirst(books, BookIdsOfChild(books, childId))
  }

  /** Books of the children a user may see: the child must exist (inner
      join) and be owned by the user or shared with them (left join). */
  function VisibleBookIds(children: map<nat, Child>, permissions: map<nat, Permission>,
                          books: map<nat, Book>, userId: nat): set<nat>
  {
    set k | k in books && books[k].childId in ChildService.VisibleChildIds(children, permissions, userId)
  }

  function GetBooksForUser(children: map<nat, Child>, permissions: map<nat, Permission>,
                           books: map<nat, Book>, userId: nat): (r: seq<Book>)
    requires BooksKeyed(books)
    ensures DateDescending(r)
    ensures forall b :: b in r <==> (b.id in books && books[b.id] == b && b.childId in children
      && ChildService.CheckChildPermission(children, permissions, userId, b.childId, View) == Ok(true))
  {
    var ids := VisibleBookIds(children, permissions, books, userId);
    var r := NewestFirst(books, ids);
    forall b
      ensures b in r <==> (b.id in books && books[b.id] == b && b.childId in children
        && ChildService.CheckChildPermission(children, permissions, userId, b.childId, View) == Ok(true))
    {
      if b.childId in children {
        ChildService.VisibleIffViewAllowed(children, permissions, userId, b.childId);
      }
    }
    r
  }

  function BookIdsInMonth(books: map<nat, Book>, childId: nat, year: int, month: int): set<nat>
  {
    set k | k in books && books[k].childId == childId && InMonth(books[k].dateRead, year, month)
  }

  /** `WHERE child_id = ? AND date_read >= start AND date_read < end
      ORDER BY date_read DESC` */
  function GetBooksByChildAndMonth(books: map<nat, Book>, childId: nat, year: int, month: int): (r: seq<Book>)
    requires BooksKeyed(books)
    ensures DateDescending(r)
    ensures forall b :: b in r <==> (b.id in books && books[b.id] == b && b.childId == childId
      && InMonth(b.dateRead, year, month))
  {
    NewestFirst(books, BookIdsInMonth(books, childId, year, month))
  }

  /** `SELECT count(*)` over the same window. */
  function GetBookCountByChildAndMonth(books: map<nat, Book>, childId: nat, year: int, month: int): nat
  {
    |BookIdsInMonth(books, childId, year, month)|
  }

  /** The count and the list of the same month always agree. */
  lemma CountMatchesList(books: map<nat, Book>, childId: nat, year: int, month: int)
    requires BooksKeyed(books)
    ensures GetBookCountByChildAndMonth(books, childId, year, month)
      == |GetBooksByChildAndMonth(books, childId, year, month)|
  {
  }

  /** A record dated in the requested month (four-digit years, `YYYY-MM-DD`)
      is in that month's list, and a record of another month is not. */
  lemma MonthListSelectsByDate(books: map<nat, Book>, childId: nat, year: int, month: int, k: nat,
                               y: int, m: int, d: int)
    requires BooksKeyed(books) && k in books && books[k].childId == childId
    requires 1000 <= year <= 9999 && 1 <= month <= 12 && !(year == 9999 && month == 12)
    requires 1000 <= y <= 9999 && 1 <= m <= 12 && 1 <= d <= 99
    requires books[k].dateRead == IsoDate(y, m, d)
    ensures books[k] in GetBooksByChildAndMonth(books, childId, year, month) <==> y == year && m == month
  {
    MonthWindowExact(year, month, y, m, d);
  }
}

/** The `backend` variant of the child service: children carry a first and
    last name, and two month views count each visible child's books. The
    access rule and deletion are those of `ChildService`. */
module BackendChildService {
  import opened Common
  import opened Records
  import opened Store
  import ChildService
  import BookQueries

  method CreateChild(db: Db, firstName: string, lastName: string, grade: string, ownerId: nat, now: int)
    returns (child: Child)
    requires db.Valid()
    modifies db`children, db`nextId
    ensures db.Valid()
    ensures child.id !in old(db.children) && db.children == old(db.children)[child.id := child]
    ensures child == Child(child.id, "", firstName, lastName, grade, ownerId, now, now)
  {
    var id := db.NewId();
    child := Child(id, "", firstName, lastName, grade, ownerId, now, now);
    db.children := db.children[id := child];
  }

  /** Changes the names and the grade; the owner never changes. */
  method UpdateChild(db: Db, id: nat, firstName: string, lastName: string, grade: string, now: int)
    returns (r: Result<Child>)
    requires db.Valid()
    modifies db`children
    ensures db.Valid()
    ensures id !in old(db.children) ==> r == Err("child not found") && db.children == old(db.children)
    ensures id in old(db.children) ==>
      r == Ok(old(db.children)[id].(firstName := firstName, lastName := lastName, grade := grade, updatedAt := now))
    ensures r.Ok? ==> db.children == old(db.children)[id := r.value] && r.value.ownerId == old(db.children)[id].ownerId
  {
    if id !in db.children {
      return Err("child not found");
    }
    var child := db.children[id].(firstName := firstName, lastName := lastName, grade := grade, updatedAt := now);
    db.children := db.children[id := child];
    r := Ok(child);
  }

  datatype ChildWithBookCount = ChildWithBookCount(
    id: nat,
    firstName: string,
    lastName: string,
    grade: string,
    ownerId: nat,
    createdAt: int,
    bookCount: nat)

  datatype BookCount = BookCount(childId: nat, bookCount: nat)

  /** A visible child with the number of its books dated in the month
      (which `BookQueries.CountMatchesList` shows is the length of that
      month's list). */
  function WithBookCount(child: Child, books: map<nat, Book>, year: int, month: int): ChildWithBookCount
  {
    ChildWithBookCount(child.id, child.firstName, child.lastName, child.grade, child.ownerId, child.createdAt,
                       BookQueries.GetBookCountByChildAndMonth(books, child.id, year, month))
  }

  /** The counting loop over the children the query returned. */
  method AttachBookCounts(kids: seq<Child>, books: map<nat, Book>, year: int, month: int)
    returns (r: seq<ChildWithBookCount>)
    ensures |r| == |kids| && forall i :: 0 <= i < |r| ==> r[i] == WithBookCount(kids[i], books, year, month)
  {
    r := [];
    var i := 0;
    while i < |kids|
      invariant 0 <= i <= |kids| && |r| == i
      invariant forall j :: 0 <= j < i ==> r[j] == WithBookCount(kids[j], books, year, month)
    {
      var child := kids[i];
      var count := BookQueries.GetBookCountByChildAndMonth(books, child.id, year, month);
      r := r + [ChildWithBookCount(child.id, child.firstName, child.lastName, child.grade, child.ownerId,
                                   child.createdAt, count)];
      i := i + 1;
    }
  }

  /** One entry per child the user may see, in the order the visibility
      query gives. */
  method GetChildrenWithBookCounts(children: map<nat, Child>, permissions: map<nat, Permission>, books: map<nat, Book>,
                                   userId: nat, year: int, month: int) returns (r: seq<ChildWithBookCount>)
    requires ChildrenKeyed(children)
    ensures var kids := ChildService.GetChildrenWithPermission(children, permissions, userId);
      |r| == |kids| && forall i :: 0 <= i < |r| ==> r[i] == WithBookCount(kids[i], books, year, month)
  {
    var kids := ChildService.GetChildrenWithPermission(children, permissions, userId);
    r := AttachBookCounts(kids, books, year, month);
  }

  /** The per-child counts without the child details. */
  method CollectBookCounts(kids: seq<Child>, books: map<nat, Book>, year: int, month: int)
    returns (r: seq<BookCount>)
    ensures |r| == |kids| && forall i :: 0 <= i < |r| ==>
      r[i] == BookCount(kids[i].id, BookQueries.GetBookCountByChildAndMonth(books, kids[i].id, year, month))
  {
    r := [];
    var i := 0;
    while i < |kids|
      invariant 0 <= i <= |kids| && |r| == i
      invariant forall j :: 0 <= j < i ==>
        r[j] == BookCount(kids[j].id, BookQueries.GetBookCountByChildAndMonth(books, kids[j].id, year, month))
    {
      var count := BookQueries.GetBookCountByChildAndMonth(books, kids[i].id, year, month);
      r := r + [BookCount(kids[i].id, count)];
      i := i + 1;
    }
  }

  /** The same counts without the child details, for switching months. */
  method GetBookCountsForUserChildren(children: map<nat, Child>, permissions: map<nat, Permission>,
                                      books: map<nat, Book>, userId: nat, year: int, month: int)
    returns (r: seq<BookCount>)
    requires ChildrenKeyed(children)
    ensures var kids := ChildService.GetChildrenWithPermission(children, permissions, userId);
      |r| == |kids| && forall i :: 0 <= i < |r| ==>
        r[i] == BookCount(kids[i].id, BookQueries.GetBookCountByChildAndMonth(books, kids[i].id, year, month))
  {
    var kids := ChildService.GetChildrenWithPermission(children, permissions, userId);
    r := CollectBookCounts(kids, books, year, month);
  }
}

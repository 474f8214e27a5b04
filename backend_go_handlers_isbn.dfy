/** The ISBN lookup of `backend-go/handlers/isbn.go`. The ISBN text is
    cleaned of hyphens and spaces, its byte length must be 10 or 13, the
    Open Library answer for it is read, and a found title is recorded as a
    shared catalogue entry (reused when one with that ISBN exists). The
    HTTP fetch and the JSON decoding are not modelled: their outcome is the
    `Upstream` value the handler is given. */
module IsbnLookup {
  import opened Common
  import opened Text
  import opened Records
  import opened Store
  import opened Handlers
  import Collections

  /** Every occurrence of `c` removed, everything else kept in order. */
  function RemoveAll(s: string, c: char): (r: string)
    ensures |r| <= |s|
    ensures forall x :: x in r <==> x in s && x != c
  {
    if s == [] then []
    else (if s[0] == c then [] else [s[0]]) + RemoveAll(s[1..], c)
  }

  /** Removing from a concatenation removes from each part. */
  lemma {:induction false} RemoveAllConcat(a: string, b: string, c: char)
    ensures RemoveAll(a + b, c) == RemoveAll(a, c) + RemoveAll(b, c)
  {
    if a != [] {
      var head := if a[0] == c then [] else [a[0]];
      assert (a + b)[0] == a[0] && (a + b)[1..] == a[1..] + b;
      RemoveAllConcat(a[1..], b, c);
      calc {
        RemoveAll(a + b, c);
        head + RemoveAll(a[1..] + b, c);
        head + (RemoveAll(a[1..], c) + RemoveAll(b, c));
        (head + RemoveAll(a[1..], c)) + RemoveAll(b, c);
      }
    } else {
      assert a + b == b;
    }
  }

  /** Removing a character that does not occur changes nothing. */
  lemma {:induction false} RemoveAbsent(s: string, c: char)
    requires c !in s
    ensures RemoveAll(s, c) == s
  {
    if s != [] {
      assert c !in s[1..];
      RemoveAbsent(s[1..], c);
    }
  }

  /** The cleaning of the requested ISBN: hyphens first, then spaces. */
  function Clean(s: string): (r: string)
    ensures forall x :: x in r <==> x in s && x != '-' && x != ' '
  {
    RemoveAll(RemoveAll(s, '-'), ' ')
  }

  /** Cleaning twice is cleaning once. */
  lemma CleanIdempotent(s: string)
    ensures Clean(Clean(s)) == Clean(s)
  {
    RemoveAbsent(Clean(s), '-');
    RemoveAbsent(Clean(s), ' ');
  }

  /** Cleaning works character by character: it keeps every character
      other than a hyphen or a space, in order. */
  lemma CleanConcat(a: string, b: string)
    ensures Clean(a + b) == Clean(a) + Clean(b)
    ensures forall x :: Clean([x]) == if x == '-' || x == ' ' then [] else [x]
  {
    RemoveAllConcat(a, b, '-');
    RemoveAllConcat(RemoveAll(a, '-'), RemoveAll(b, '-'), ' ');
  }

  /** The only format check: 10 or 13 bytes, with no check of the digits. */
  predicate AcceptedLength(isbn: string)
  {
    ByteLength(isbn) == 10 || ByteLength(isbn) == 13
  }

  /** One entry of the Open Library answer. */
  datatype OpenLibraryEntry = OpenLibraryEntry(
    title: string,
    authors: seq<string>,
    small: string,
    medium: string,
    large: string)

  /** What fetching `https://openlibrary.org/api/books?bibkeys=ISBN:<isbn>`
      gave: a transport error, or a status code and the decoding of the
      body (an error when it is not the expected JSON). */
  datatype Upstream =
    | Unreachable(error: string)
    | Fetched(statusCode: int, decoded: Result<map<string, OpenLibraryEntry>>)

  /** The answer of the route. */
  datatype BookInfo = BookInfo(
    isbn: string,
    title: string,
    author: string,
    coverUrl: string,
    found: bool,
    sharedBookId: Option<nat>)

  const InvalidIsbnFormat: string := "Invalid ISBN format. Must be 10 or 13 digits."
  const LookupFailed: string := "Failed to lookup ISBN: "
  const ParseFailed: string := "Failed to parse API response: "
  const OpenLibrarySource: string := "openlibrary"

  /** The key under which Open Library files an ISBN. */
  function KeyOf(isbn: string): string
  {
    "ISBN:" + isbn
  }

  /** The first listed author, or nothing. */
  function AuthorOf(e: OpenLibraryEntry): (r: string)
    ensures |e.authors| > 0 ==> r == e.authors[0]
    ensures |e.authors| == 0 ==> r == ""
  {
    if |e.authors| > 0 then e.authors[0] else ""
  }

  /** The cover: medium if there is one, else large, else small, else none. */
  function CoverOf(e: OpenLibraryEntry): (r: string)
    ensures r == "" <==> e.medium == "" && e.large == "" && e.small == ""
    ensures r in {e.medium, e.large, e.small, ""}
    ensures e.medium != "" ==> r == e.medium
    ensures e.medium == "" && e.large != "" ==> r == e.large
  {
    if e.medium != "" then e.medium
    else if e.large != "" then e.large
    else if e.small != "" then e.small
    else ""
  }

  /** Everything the route decides before it touches the catalogue: either
      its final answer, or a found book to record. */
  datatype Resolution =
    | Answer(reply: Reply<BookInfo>)
    | Hit(isbn: string, title: string, author: string, coverUrl: string)

  /** The answer that says nothing was found: only the ISBN is filled. */
  function NotFound(status: int, isbn: string): Reply<BookInfo>
  {
    Answered(status, BookInfo(isbn, "", "", "", false, None))
  }

  /** The pure part of `LookupISBN`, in the order of its checks. */
  function Resolve(body: Option<string>, upstream: Upstream): (r: Resolution)
    ensures body.None? ==> r == Answer(Refused(StatusBadRequest, InvalidRequestData))
    ensures body.Some? && !AcceptedLength(Clean(body.value)) ==> r == Answer(Refused(StatusBadRequest, InvalidIsbnFormat))
    ensures body.Some? && AcceptedLength(Clean(body.value)) && upstream.Fetched? && upstream.statusCode != StatusOK
            ==> r == Answer(NotFound(StatusBadRequest, Clean(body.value)))
    ensures body.Some? && AcceptedLength(Clean(body.value)) && upstream.Unreachable?
            ==> r == Answer(Refused(StatusInternalServerError, LookupFailed + upstream.error))
    ensures (body.Some? && AcceptedLength(Clean(body.value)) && upstream.Fetched? && upstream.statusCode == StatusOK
             && upstream.decoded.Err?)
            ==> r == Answer(Refused(StatusInternalServerError, ParseFailed + upstream.decoded.message))
    ensures (body.Some? && AcceptedLength(Clean(body.value)) && upstream.Fetched? && upstream.statusCode == StatusOK
             && upstream.decoded.Ok?
             && (KeyOf(Clean(body.value)) !in upstream.decoded.value
                 || upstream.decoded.value[KeyOf(Clean(body.value))].title == ""))
            ==> r == Answer(NotFound(StatusOK, Clean(body.value)))
    ensures r.Hit? <==>
      && body.Some? && AcceptedLength(Clean(body.value))
      && upstream.Fetched? && upstream.statusCode == StatusOK && upstream.decoded.Ok?
      && KeyOf(Clean(body.value)) in upstream.decoded.value
      && upstream.decoded.value[KeyOf(Clean(body.value))].title != ""
    ensures r.Hit? ==>
      var e := upstream.decoded.value[KeyOf(Clean(body.value))];
      r == Hit(Clean(body.value), e.title, AuthorOf(e), CoverOf(e))
    ensures r.Answer? && r.reply.Answered? ==>
      && body.Some? && !r.reply.value.found && r.reply.value.isbn == Clean(body.value)
      && r.reply.value.title == "" && r.reply.value.author == "" && r.reply.value.sharedBookId.None?
      && (r.reply.status == StatusOK <==> (upstream.Fetched? && upstream.statusCode == StatusOK))
  {
    match body
    case None => Answer(Refused(StatusBadRequest, InvalidRequestData))
    case Some(text) =>
      var isbn := Clean(text);
      if !AcceptedLength(isbn) then Answer(Refused(StatusBadRequest, InvalidIsbnFormat))
      else match upstream
        case Unreachable(err) => Answer(Refused(StatusInternalServerError, LookupFailed + err))
        case Fetched(code, decoded) =>
          if code != StatusOK then Answer(NotFound(StatusBadRequest, isbn))
          else match decoded
            case Err(err) => Answer(Refused(StatusInternalServerError, ParseFailed + err))
            case Ok(entries) =>
              var key := KeyOf(isbn);
              if key !in entries || entries[key].title == "" then Answer(NotFound(StatusOK, isbn))
              else
                var e := entries[key];
                Hit(isbn, e.title, AuthorOf(e), CoverOf(e))
  }

  /** Two requests whose ISBNs differ only in hyphens and spaces are
      answered alike. */
  lemma FormattingIsIgnored(text: string, upstream: Upstream)
    ensures Resolve(Some(text), upstream) == Resolve(Some(Clean(text)), upstream)
  {
    CleanIdempotent(text);
  }

  /** Removing a character never adds bytes. */
  lemma {:induction false} RemoveAllShrinks(s: string, c: char)
    ensures ByteLength(RemoveAll(s, c)) <= ByteLength(s)
  {
    if s != [] {
      RemoveAllShrinks(s[1..], c);
      var rest := RemoveAll(s[1..], c);
      if s[0] == c {
        assert RemoveAll(s, c) == rest;
      } else {
        assert RemoveAll(s, c) == [s[0]] + rest;
        assert ([s[0]] + rest)[1..] == rest;
      }
    }
  }

  /** Every ISBN shorter than ten bytes is refused as malformed, whatever
      the catalogue would have answered: cleaning only shortens it. */
  lemma ShortInputRejected(text: string, upstream: Upstream)
    requires ByteLength(text) < 10
    ensures Resolve(Some(text), upstream) == Answer(Refused(StatusBadRequest, InvalidIsbnFormat))
  {
    RemoveAllShrinks(text, '-');
    RemoveAllShrinks(RemoveAll(text, '-'), ' ');
  }

  /** Every ISBN made only of hyphens and spaces is refused as malformed. */
  lemma SeparatorsRejected(text: string, upstream: Upstream)
    requires forall i :: 0 <= i < |text| ==> text[i] == '-' || text[i] == ' '
    ensures Resolve(Some(text), upstream) == Answer(Refused(StatusBadRequest, InvalidIsbnFormat))
  {
    SeparatorsOnly(text);
  }

  /** A text made only of hyphens and spaces cleans to nothing. */
  lemma {:induction false} SeparatorsOnly(s: string)
    requires forall i :: 0 <= i < |s| ==> s[i] == '-' || s[i] == ' '
    ensures Clean(s) == ""
  {
    if s != [] {
      assert s == [s[0]] + s[1..];
      CleanConcat([s[0]], s[1..]);
      SeparatorsOnly(s[1..]);
    }
  }

  /** The catalogue entry with this ISBN that gorm's `First` finds: the
      one with the least id. */
  function SharedBookByIsbn(sharedBooks: map<nat, SharedBook>, isbn: string): (r: Option<nat>)
    ensures r.None? <==> forall k :: k in sharedBooks ==> sharedBooks[k].isbn != isbn
    ensures r.Some? ==> r.value in sharedBooks && sharedBooks[r.value].isbn == isbn
    ensures r.Some? ==> forall k :: k in sharedBooks && sharedBooks[k].isbn == isbn ==> r.value <= k
  {
    var matches := set k | k in sharedBooks && sharedBooks[k].isbn == isbn;
    assert forall k :: k in sharedBooks && sharedBooks[k].isbn == isbn ==> k in matches;
    if matches == {} then None else Some(Collections.Least(matches))
  }

  /** The cover an existing entry keeps after a lookup: the looked-up one
      when there is one, the stored one otherwise, so a cover is never
      cleared. */
  function CoverAfterLookup(stored: string, looked: string): (r: string)
    ensures looked != "" ==> r == looked
    ensures looked == "" ==> r == stored
  {
    if looked != "" && stored != looked then looked else stored
  }

  /** `LookupISBN`: the checks of `Resolve`, then the upsert of the found
      book into the catalogue. The answer names the entry that a later
      lookup of the same ISBN will find. */
  method LookupISBN(db: Db, body: Option<string>, upstream: Upstream) returns (r: Reply<BookInfo>)
    requires db.Valid()
    modifies db`sharedBooks, db`nextId
    ensures db.Valid()
    ensures var res := Resolve(body, upstream);
      && (res.Answer? ==> r == res.reply && db.sharedBooks == old(db.sharedBooks) && db.nextId == old(db.nextId))
      && (res.Hit? ==>
            && r.Answered? && r.status == StatusOK
            && r.value.isbn == res.isbn && r.value.title == res.title && r.value.author == res.author
            && r.value.coverUrl == res.coverUrl && r.value.found
            && r.value.sharedBookId.Some?
            && SharedBookByIsbn(db.sharedBooks, res.isbn) == r.value.sharedBookId)
    ensures var res := Resolve(body, upstream);
      res.Hit? && SharedBookByIsbn(old(db.sharedBooks), res.isbn).Some? ==>
        var k := SharedBookByIsbn(old(db.sharedBooks), res.isbn).value;
        && r.value.sharedBookId == Some(k)
        && db.sharedBooks == old(db.sharedBooks)[k := old(db.sharedBooks)[k].(coverUrl :=
             CoverAfterLookup(old(db.sharedBooks)[k].coverUrl, res.coverUrl))]
    ensures var res := Resolve(body, upstream);
      res.Hit? && SharedBookByIsbn(old(db.sharedBooks), res.isbn).None? ==>
        var k := old(db.nextId);
        && r.value.sharedBookId == Some(k)
        && db.sharedBooks == old(db.sharedBooks)[k := SharedBook(k, res.isbn, res.title, res.author, res.coverUrl,
                                                                 OpenLibrarySource)]
  {
    var res := Resolve(body, upstream);
    if res.Answer? {
      return res.reply;
    }
    var existing := SharedBookByIsbn(db.sharedBooks, res.isbn);
    var sharedBookId: nat;
    if existing.Some? {
      sharedBookId := existing.value;
      var row := db.sharedBooks[sharedBookId];
      if res.coverUrl != "" && row.coverUrl != res.coverUrl {
        db.sharedBooks := db.sharedBooks[sharedBookId := row.(coverUrl := res.coverUrl)];
      }
      ReusedEntryStaysFirst(old(db.sharedBooks), db.sharedBooks, sharedBookId, res.isbn);
    } else {
      sharedBookId := db.NewId();
      db.sharedBooks := db.sharedBooks[sharedBookId := SharedBook(sharedBookId, res.isbn, res.title, res.author,
                                                                  res.coverUrl, OpenLibrarySource)];
      FreshEntryIsFirst(old(db.sharedBooks), db.sharedBooks, sharedBookId, res.isbn);
    }
    r := Answered(StatusOK, BookInfo(res.isbn, res.title, res.author, res.coverUrl, true, Some(sharedBookId)));
  }

  /** Changing only the cover of the first entry with an ISBN keeps it
      the first. */
  lemma ReusedEntryStaysFirst(before: map<nat, SharedBook>, after: map<nat, SharedBook>, k: nat, isbn: string)
    requires SharedBookByIsbn(before, isbn) == Some(k)
    requires k in after && after[k].isbn == isbn
    requires forall j :: j in after <==> j in before
    requires forall j :: j in before && j != k ==> after[j] == before[j]
    ensures SharedBookByIsbn(after, isbn) == Some(k)
  {
    var m := SharedBookByIsbn(after, isbn).value;
    assert m in before && before[m].isbn == isbn;
  }

  /** A new entry with an ISBN no other entry has is the first with it. */
  lemma FreshEntryIsFirst(before: map<nat, SharedBook>, after: map<nat, SharedBook>, k: nat, isbn: string)
    requires SharedBookByIsbn(before, isbn).None?
    requires k !in before && k in after && after[k].isbn == isbn
    requires after == before[k := after[k]]
    ensures SharedBookByIsbn(after, isbn) == Some(k)
  {
  }
}

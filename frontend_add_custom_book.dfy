/** The duplicate check of the custom-book form
    (`frontend/src/components/AddCustomBookModal.jsx`): a custom title
    the child has already finished is flagged, comparing titles and
    authors without regard to letter case or surrounding white space.
    `toLowerCase` and `trim` are modelled over ASCII. */
module CustomBookForm {

  predicate IsSpace(c: char)
  {
    c == ' ' || c == '\t' || c == '\n' || c == '\r' || c as int == 0x0B || c as int == 0x0C
  }

  predicate AllSpace(s: string)
  {
    forall k :: 0 <= k < |s| ==> IsSpace(s[k])
  }

  /** `toLowerCase` of one character: 'A'..'Z' become 'a'..'z', and every
      other character is kept. */
  function LowerChar(c: char): (r: char)
    ensures 'A' <= c <= 'Z' ==> 'a' <= r <= 'z' && r as int - 'a' as int == c as int - 'A' as int
    ensures !('A' <= c <= 'Z') ==> r == c
    ensures IsSpace(r) <==> IsSpace(c)
    ensures !('A' <= r <= 'Z')
  {
    if 'A' <= c <= 'Z' then (c as int + 32) as char else c
  }

  /** `toLowerCase` on ASCII letters; every other character is kept. */
  function Lower(s: string): (r: string)
    ensures |r| == |s| && forall i :: 0 <= i < |s| ==> r[i] == LowerChar(s[i])
  {
    seq(|s|, i requires 0 <= i < |s| => LowerChar(s[i]))
  }

  /** `trim`: white space removed from both ends. */
  function Trim(s: string): (r: string)
    ensures r == [] || (!IsSpace(r[0]) && !IsSpace(r[|r| - 1]))
    decreases |s|
  {
    if s == [] then []
    else if IsSpace(s[0]) then Trim(s[1..])
    else if IsSpace(s[|s| - 1]) then Trim(s[..|s| - 1])
    else s
  }

  /** The bounds of what `trim` keeps: everything before `i` and from `j`
      on is white space. */
  lemma {:induction false} TrimBounds(s: string) returns (i: nat, j: nat)
    ensures i <= j <= |s| && Trim(s) == s[i..j] && AllSpace(s[..i]) && AllSpace(s[j..])
    decreases |s|
  {
    if s == [] {
      i, j := 0, 0;
    } else if IsSpace(s[0]) {
      var i', j' := TrimBounds(s[1..]);
      i, j := i' + 1, j' + 1;
      assert s[1..][i'..j'] == s[i..j];
      assert s[1..][j'..] == s[j..];
      assert s[..i] == [s[0]] + s[1..][..i'];
    } else if IsSpace(s[|s| - 1]) {
      var p := s[..|s| - 1];
      i, j := TrimBounds(p);
      assert p[i..j] == s[i..j] && p[..i] == s[..i];
      assert s[j..] == p[j..] + [s[|s| - 1]];
    } else {
      i, j := 0, |s|;
    }
  }

  /** What `trim` keeps is the text between some white-space prefix and
      some white-space suffix; with the ends `Trim` ensures, this is the
      longest such middle. */
  lemma TrimDropsOnlyOuterSpace(s: string)
    ensures exists i, j :: 0 <= i <= j <= |s| && Trim(s) == s[i..j] && AllSpace(s[..i]) && AllSpace(s[j..])
  {
    var i, j := TrimBounds(s);
  }

  /** White space added around a text is trimmed away again. */
  lemma {:induction false} TrimIgnoresOuterSpace(a: string, t: string, b: string)
    requires AllSpace(a) && AllSpace(b)
    ensures Trim(a + t + b) == Trim(t)
    decreases |a| + |t| + |b|
  {
    var s := a + t + b;
    if a != [] {
      assert s[0] == a[0] && s[1..] == a[1..] + t + b;
      TrimIgnoresOuterSpace(a[1..], t, b);
    } else if t == [] {
      assert s == b;
      BlankIffAllSpace(b);
    } else if IsSpace(t[0]) {
      assert s[0] == t[0] && s[1..] == [] + t[1..] + b;
      TrimIgnoresOuterSpace([], t[1..], b);
    } else if b != [] {
      assert s[0] == t[0] && s[|s| - 1] == b[|b| - 1];
      assert s[..|s| - 1] == [] + t + b[..|b| - 1];
      TrimIgnoresOuterSpace([], t, b[..|b| - 1]);
    } else {
      assert s == t;
    }
  }

  /** A text is blank when trimming leaves nothing. */
  predicate Blank(s: string)
  {
    Trim(s) == ""
  }

  /** Trimming leaves nothing exactly when the text is all white space. */
  lemma {:induction false} BlankIffAllSpace(s: string)
    ensures Blank(s) <==> AllSpace(s)
    decreases |s|
  {
    if s == [] {
    } else if IsSpace(s[0]) {
      BlankIffAllSpace(s[1..]);
      assert forall k :: 0 <= k < |s| - 1 ==> s[1..][k] == s[k + 1];
    } else if IsSpace(s[|s| - 1]) {
      BlankIffAllSpace(s[..|s| - 1]);
      assert s[..|s| - 1][0] == s[0];
    }
  }

  /** `normalizeString`: lower-cased, then trimmed. */
  function Normalize(s: string): string
  {
    Trim(Lower(s))
  }

  /** Lower-casing keeps every white-space character where it is, so a
      text is blank exactly when its normal form is empty. */
  lemma BlankIffNormalEmpty(s: string)
    ensures Blank(s) <==> Normalize(s) == ""
  {
    BlankIffAllSpace(s);
    BlankIffAllSpace(Lower(s));
  }

  /** The fields of an already listed record that the check reads. */
  datatype ListedBook = ListedBook(title: string, author: string, isPartial: bool, isCustomBook: bool)

  /** The form's fields. */
  datatype Form = Form(title: string, author: string, isPartial: bool, partialComment: string)

  /** One record matches when it is a finished custom record whose title
      and author equal the form's after normalising both sides. */
  predicate Matches(b: ListedBook, title: string, author: string)
  {
    !b.isPartial && b.isCustomBook && Normalize(b.title) == Normalize(title) && Normalize(b.author) == Normalize(author)
  }

  /** `existingBooks.some(...)`, element by element. */
  function AnyMatch(books: seq<ListedBook>, title: string, author: string): (r: bool)
  {
    if books == [] then false else Matches(books[0], title, author) || AnyMatch(books[1..], title, author)
  }

  lemma {:induction false} AnyMatchExactly(books: seq<ListedBook>, title: string, author: string)
    ensures AnyMatch(books, title, author) <==> exists i :: 0 <= i < |books| && Matches(books[i], title, author)
  {
    if books != [] {
      AnyMatchExactly(books[1..], title, author);
      if exists i :: 0 <= i < |books| && Matches(books[i], title, author) {
        var i :| 0 <= i < |books| && Matches(books[i], title, author);
        if i > 0 {
          assert books[1..][i - 1] == books[i];
        }
      }
    }
  }

  /** `checkForDuplicate`: a blank title or author is never a duplicate;
      otherwise some finished custom record must match. */
  function CheckForDuplicate(form: Form, existing: seq<ListedBook>): (r: bool)
    ensures Blank(form.title) || Blank(form.author) ==> !r
    ensures r <==> !Blank(form.title) && !Blank(form.author)
                   && exists i :: 0 <= i < |existing| && Matches(existing[i], form.title, form.author)
  {
    AnyMatchExactly(existing, form.title, form.author);
    if Blank(form.title) || Blank(form.author) then false
    else AnyMatch(existing, form.title, form.author)
  }

  /** The flag the form's effect leaves: cleared for a partial read,
      otherwise the check's answer. */
  function DuplicateFlag(form: Form, existing: seq<ListedBook>): (r: bool)
    ensures form.isPartial ==> !r
    ensures !form.isPartial ==> r == CheckForDuplicate(form, existing)
  {
    if !form.isPartial then CheckForDuplicate(form, existing) else false
  }

  /** Two texts that differ only in the case of ASCII letters. */
  predicate CaseVariant(s: string, t: string)
  {
    |s| == |t| && forall i :: 0 <= i < |s| ==> LowerChar(s[i]) == LowerChar(t[i])
  }

  /** Normalising ignores letter case and white space around the text. */
  lemma NormalizeIgnoresCaseAndSpace(s: string, t: string, a: string, b: string)
    requires CaseVariant(s, t) && AllSpace(a) && AllSpace(b)
    ensures Normalize(a + t + b) == Normalize(s)
  {
    assert Lower(t) == Lower(s);
    assert Lower(a + t + b) == Lower(a) + Lower(t) + Lower(b);
    TrimIgnoresOuterSpace(Lower(a), Lower(t), Lower(b));
  }

  /** Letter case and surrounding white space in the title and author do
      not change the verdict: a form whose title and author are padded
      case variants of another's is flagged exactly when the other is. */
  lemma DuplicateIgnoresCaseAndSpace(form: Form, title: string, author: string, a1: string, b1: string,
                                     a2: string, b2: string, existing: seq<ListedBook>)
    requires CaseVariant(form.title, title) && CaseVariant(form.author, author)
    requires AllSpace(a1) && AllSpace(b1) && AllSpace(a2) && AllSpace(b2)
    ensures DuplicateFlag(form.(title := a1 + title + b1, author := a2 + author + b2), existing)
            == DuplicateFlag(form, existing)
  {
    NormalizeIgnoresCaseAndSpace(form.title, title, a1, b1);
    NormalizeIgnoresCaseAndSpace(form.author, author, a2, b2);
    SameNormalFormSameFlag(form, form.(title := a1 + title + b1, author := a2 + author + b2), existing);
  }

  /** Forms whose titles and authors have the same normal forms get the
      same verdict. */
  lemma SameNormalFormSameFlag(form: Form, other: Form, existing: seq<ListedBook>)
    requires Normalize(form.title) == Normalize(other.title) && Normalize(form.author) == Normalize(other.author)
    requires form.isPartial == other.isPartial
    ensures DuplicateFlag(form, existing) == DuplicateFlag(other, existing)
  {
    BlankIffNormalEmpty(form.title);
    BlankIffNormalEmpty(other.title);
    BlankIffNormalEmpty(form.author);
    BlankIffNormalEmpty(other.author);
  }

  /** A record read only in part, or one taken from the catalogue, never
      makes the form a duplicate. */
  lemma OnlyFinishedCustomRecordsCount(form: Form, existing: seq<ListedBook>)
    requires forall i :: 0 <= i < |existing| ==> existing[i].isPartial || !existing[i].isCustomBook
    ensures !DuplicateFlag(form, existing)
  {
  }

  /** `isFormValid`: title and author not blank, not a duplicate, and a
      comment that is not blank for a partial read. */
  predicate IsFormValid(form: Form, isDuplicate: bool)
  {
    !Blank(form.title) && !Blank(form.author) && !isDuplicate && (!form.isPartial || !Blank(form.partialComment))
  }

  /** With the flag the effect computes, a finished read can be saved
      exactly when title and author are given and no finished custom
      record matches them; a partial read needs a comment instead, and is
      never refused as a duplicate. */
  lemma FormValidity(form: Form, existing: seq<ListedBook>)
    ensures !form.isPartial ==>
      (IsFormValid(form, DuplicateFlag(form, existing)) <==>
        !Blank(form.title) && !Blank(form.author)
        && forall i :: 0 <= i < |existing| ==> !Matches(existing[i], form.title, form.author))
    ensures form.isPartial ==>
      (IsFormValid(form, DuplicateFlag(form, existing)) <==>
        !Blank(form.title) && !Blank(form.author) && !Blank(form.partialComment))
  {
  }

  /** `handleSubmit` posts unless the flag is set. */
  predicate SubmitPosts(isDuplicate: bool)
  {
    !isDuplicate
  }

  /** `handleFinishedToday`'s own test: a non-empty title and author (not
      trimmed) and the flag clear. Its button is disabled unless the form is
      valid, which the handler itself does not check. */
  predicate FinishedTodayPosts(form: Form, isDuplicate: bool)
  {
    form.title != "" && form.author != "" && !isDuplicate
  }

  /** Neither button posts a form flagged as a duplicate. "Finished Today"
      tests the title and author untrimmed, so a title and author of one
      space pass that handler's own test while `isFormValid` rejects them.
      Both buttons are disabled while the form is not valid, so this case is
      not reached by clicking; it shows only what the handler's test admits. */
  lemma PostingRules(form: Form, existing: seq<ListedBook>)
    ensures DuplicateFlag(form, existing) ==> !SubmitPosts(DuplicateFlag(form, existing))
                                              && !FinishedTodayPosts(form, DuplicateFlag(form, existing))
    ensures form.title == " " && form.author == " " ==>
      FinishedTodayPosts(form, DuplicateFlag(form, existing)) && !IsFormValid(form, DuplicateFlag(form, existing))
  {
    if form.title == " " {
      assert Trim(form.title) == Trim(form.title[1..]);
    }
    if form.author == " " {
      assert Trim(form.author) == Trim(form.author[1..]);
    }
  }
}

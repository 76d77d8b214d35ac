/** The catalog store of the library page (`LibrarySystem`): the ordered list of records,
    changed in place by each user action. Every method is proved against the function of
    module Catalog that gives the new list, and keeps the overdue flags consistent. The
    store's writes to browser storage and its re-rendering are not modelled. */
module LibraryStore {
  import opened Sequences
  import opened Text
  import opened Catalog
  import Queries

  /** One step of the sweep loop: rewriting record `i` of a list swept up to `i` gives a
      list swept up to `i + 1`, and the count of flagged records grows by one exactly when
      record `i` is overdue. */
  lemma SweepStep(original: seq<Book>, before: seq<Book>, after: seq<Book>, today: int, i: nat)
    requires i < |before| == |original|
    requires forall k :: 0 <= k < i ==>
               before[k] == original[k].(overdue := IsOverdue(original[k], today))
    requires forall k :: i <= k < |before| ==> before[k] == original[k]
    requires after == before[i := original[i].(overdue := IsOverdue(original[i], today))]
    ensures |after| == |original|
    ensures forall k :: 0 <= k < i + 1 ==>
              after[k] == original[k].(overdue := IsOverdue(original[k], today))
    ensures forall k :: i + 1 <= k < |after| ==> after[k] == original[k]
    ensures Queries.CountFlagged(after[..i + 1]) ==
            Queries.CountFlagged(before[..i]) + (if IsOverdue(original[i], today) then 1 else 0)
  {
    assert after[..i + 1] == before[..i] + [after[i]];
    Queries.CountFlaggedSnoc(before[..i], after[i]);
  }

  /** What the sweep loop has built once it has visited every record: the swept list, with
      consistent flags, and a count equal to the size of the "overdue" view. */
  lemma SweepDone(original: seq<Book>, books: seq<Book>, today: int, count: nat)
    requires |books| == |original|
    requires forall k :: 0 <= k < |books| ==>
               books[k] == original[k].(overdue := IsOverdue(original[k], today))
    requires count == Queries.CountFlagged(books)
    ensures books == Swept(original, today)
    ensures AllFlagsConsistent(books)
    ensures count == |Queries.FilterByStatus(books, "overdue")|
  {
    SweptPointwise(original, books, today);
    SweepEstablishesFlags(original, today);
    Queries.CountFlaggedIsOverdueView(books);
  }

  class Library {
    /** The records, most recently added first. */
    var books: seq<Book>

    ghost predicate Valid()
      reads this
    {
      AllFlagsConsistent(books)
    }

    /** Start from the list found in storage (the empty list when there is none) and sweep
        it for day `today`. */
    constructor (stored: seq<Book>, today: int)
      ensures Valid()
      ensures books == Swept(stored, today)
    {
      books := stored;
      new;
      var _ := CheckOverdueBooks(today);
    }

    /** The add form: `title`, `author` and `isbn` as typed, `id` the new record's id. */
    method AddBook(title: string, author: string, isbn: string, id: string, today: int)
      returns (added: bool)
      requires Valid()
      modifies this
      ensures Valid()
      ensures added == HasTitleAndAuthor(title, author)
      ensures books == AfterAdd(old(books), title, author, isbn, id, today)
    {
      var t := Trim(title);
      var a := Trim(author);
      if t == [] || a == [] {
        return false;
      }
      var newBook := Book(id, t, a, IsbnOrNone(isbn), Available, None, today, false);
      assert FlagConsistent(newBook);
      books := [newBook] + books;
      added := true;
    }

    /** The edit form for the record `id`: `updated` is false when nothing changed. */
    method UpdateBook(id: string, title: string, author: string, isbn: string)
      returns (updated: bool)
      requires Valid()
      modifies this
      ensures Valid()
      ensures updated == (HasTitleAndAuthor(title, author) && FindById(old(books), id).Some?)
      ensures books == AfterUpdate(old(books), id, title, author, isbn)
    {
      var t := Trim(title);
      var a := Trim(author);
      if t == [] || a == [] {
        return false;
      }
      var found := FindById(books, id);
      updated := found.Some?;
      if found.Some? {
        var k := found.value;
        books := books[k := books[k].(title := t, author := a, isbn := IsbnOrNone(isbn))];
      }
    }

    /** Check out the record `id` on day `today`; `confirmed` is the answer to the dialog. */
    method CheckoutBook(id: string, confirmed: bool, today: int) returns (done: bool)
      requires Valid()
      modifies this
      ensures Valid()
      ensures done == (confirmed && CanCheckout(old(books), id))
      ensures books == AfterCheckout(old(books), id, confirmed, today)
    {
      var found := FindById(books, id);
      if found.None? || books[found.value].status != Available {
        return false;
      }
      if confirmed {
        var k := found.value;
        books := books[k := books[k].(status := CheckedOut, dueDate := Some(today + LoanDays), overdue := false)];
      }
      done := confirmed;
    }

    /** Return the record `id`; `confirmed` is the answer to the dialog. */
    method ReturnBook(id: string, confirmed: bool) returns (done: bool)
      requires Valid()
      modifies this
      ensures Valid()
      ensures done == (confirmed && CanReturn(old(books), id))
      ensures books == AfterReturn(old(books), id, confirmed)
    {
      var found := FindById(books, id);
      if found.None? || books[found.value].status != CheckedOut {
        return false;
      }
      if confirmed {
        var k := found.value;
        books := books[k := books[k].(status := Available, dueDate := None, overdue := false)];
      }
      done := confirmed;
    }

    /** Delete every record with id `id`; `confirmed` is the answer to the dialog. */
    method DeleteBook(id: string, confirmed: bool) returns (done: bool)
      requires Valid()
      modifies this
      ensures Valid()
      ensures done == (confirmed && FindById(old(books), id).Some?)
      ensures books == AfterDelete(old(books), id, confirmed)
    {
      if FindById(books, id).None? {
        return false;
      }
      if confirmed {
        books := Filter(books, (b: Book) => b.id != id);
      }
      done := confirmed;
      assert books == AfterDelete(old(books), id, confirmed);
      ghost var r := books;
      assert forall k :: 0 <= k < |r| ==> r[k] in multiset(r);
    }

    /** The overdue sweep on day `today`, one record at a time; `overdueCount` is the number
        of records it flags, the number the "overdue" view then shows. */
    method CheckOverdueBooks(today: int) returns (overdueCount: nat)
      modifies this
      ensures Valid()
      ensures books == Swept(old(books), today)
      ensures overdueCount == |Queries.FilterByStatus(books, "overdue")|
    {
      ghost var original := books;
      overdueCount := 0;
      var i := 0;
      while i < |books|
        invariant 0 <= i <= |books| == |original|
        invariant forall k :: 0 <= k < i ==>
                    books[k] == original[k].(overdue := IsOverdue(original[k], today))
        invariant forall k :: i <= k < |books| ==> books[k] == original[k]
        invariant overdueCount == Queries.CountFlagged(books[..i])
      {
        ghost var before := books;
        var b := books[i];
        if b.status == CheckedOut && b.dueDate.Some? && b.dueDate.value < today {
          books := books[i := b.(overdue := true)];
          overdueCount := overdueCount + 1;
        } else {
          books := books[i := b.(overdue := false)];
        }
        SweepStep(original, before, books, today, i);
        i := i + 1;
      }
      assert books[..i] == books;
      SweepDone(original, books, today, overdueCount);
    }

    /** The status filter's view of the store for the selected value `value`. The store's
        invariant guarantees that every record the "overdue" view shows is checked out with
        a due date. */
    method FilterBooks(value: string) returns (shown: seq<Book>)
      requires Valid()
      ensures shown == Queries.FilterByStatus(books, value)
      ensures value == "overdue" ==>
                forall i :: 0 <= i < |shown| ==> shown[i].status == CheckedOut && shown[i].dueDate.Some?
    {
      shown := Queries.FilterByStatus(books, value);
      forall i | 0 <= i < |shown|
        ensures value == "overdue" ==> shown[i].status == CheckedOut && shown[i].dueDate.Some?
      {
        assert multiset(shown)[shown[i]] > 0;
        assert shown[i] in multiset(books);
      }
    }

    /** Import the chosen file on day `today`; `confirmed` is the answer to the dialog. */
    method ImportData(file: ImportFile, confirmed: bool, today: int) returns (outcome: ImportOutcome)
      requires Valid()
      modifies this
      ensures Valid()
      ensures outcome == ImportOutcomeOf(file, confirmed)
      ensures books == AfterImport(old(books), file, confirmed, today)
    {
      match file
      case NoFile =>
        return NothingChosen;
      case Unparsable =>
        return InvalidFormat;
      case NotAnArray =>
        return InvalidFormat;
      case RecordArray(records) =>
        if !confirmed {
          return Declined;
        }
        books := records;
        var _ := CheckOverdueBooks(today);
        outcome := Imported;
    }
  }
}

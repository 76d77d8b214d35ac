/** The read-only views of the catalog: keyword search (`searchBooks`), the status filter
    (`filterBooks`), the RFID/ISBN lookup (`simulateRFID`) and the recommendation heuristic
    (`getRecommendations`). Each takes the current list and returns what would be shown. */
module Queries {
  import opened Sequences
  import opened Text
  import opened Catalog

  // ---------------------------------------------------------------------------------
  // Search

  /** A record matches the lower-cased query when its lower-cased title, author or ISBN
      contains it. */
  predicate MatchesQuery(b: Book, q: string)
  {
    Contains(Lower(b.title), q) || Contains(Lower(b.author), q) || Contains(Lower(b.isbn), q)
  }

  /** The records shown for the search box's content `input` (not trimmed). */
  function Search(books: seq<Book>, input: string): (r: seq<Book>)
    ensures input == [] ==> r == books
    ensures IsSubsequence(r, books)
    ensures forall i :: 0 <= i < |r| ==> MatchesQuery(r[i], Lower(input))
    ensures forall b :: multiset(r)[b] == if MatchesQuery(b, Lower(input)) then multiset(books)[b] else 0
  {
    var q := Lower(input);
    if q == [] then
      SubsequenceReflexive(books);
      books
    else
      var p := (b: Book) => MatchesQuery(b, q);
      FilterSpec(books, p);
      Filter(books, p)
  }

  /** The search ignores case: typing the query in any mix of cases shows the same records. */
  lemma SearchIgnoresCase(books: seq<Book>, input: string)
    ensures Search(books, input) == Search(books, Lower(input))
  {
    LowerIdempotent(input);
  }

  /** A record is shown exactly when one of its three fields, lower-cased, holds the
      lower-cased query at some position. */
  lemma SearchFindsOccurrences(books: seq<Book>, input: string, b: Book)
    requires b in books
    ensures b in Search(books, input) <==>
            (exists i :: OccursAt(Lower(b.title), Lower(input), i)) ||
            (exists i :: OccursAt(Lower(b.author), Lower(input), i)) ||
            (exists i :: OccursAt(Lower(b.isbn), Lower(input), i))
  {
    var q := Lower(input);
    ContainsIffOccurs(Lower(b.title), q);
    ContainsIffOccurs(Lower(b.author), q);
    ContainsIffOccurs(Lower(b.isbn), q);
    assert multiset(books)[b] > 0;
    var r := Search(books, input);
    assert b in r <==> multiset(r)[b] > 0;
  }

  // ---------------------------------------------------------------------------------
  // Status filter

  /** Whether the status filter with the selected value `value` shows the record. */
  predicate Selects(value: string, b: Book)
  {
    if value == "all" then true
    else if value == "overdue" then b.overdue
    else StatusName(b.status) == value
  }

  predicate IsFlagged(b: Book)
  {
    b.overdue
  }

  /** The records shown for the status filter's selected value. */
  function FilterByStatus(books: seq<Book>, value: string): (r: seq<Book>)
    ensures value == "all" ==> r == books
    ensures IsSubsequence(r, books)
    ensures forall i :: 0 <= i < |r| ==> Selects(value, r[i])
    ensures forall b :: multiset(r)[b] == if Selects(value, b) then multiset(books)[b] else 0
  {
    if value == "all" then
      SubsequenceReflexive(books);
      books
    else if value == "overdue" then
      FilterSpec(books, IsFlagged);
      Filter(books, IsFlagged)
    else
      var p := (b: Book) => StatusName(b.status) == value;
      FilterSpec(books, p);
      Filter(books, p)
  }

  /** The number of flagged records, counted from the end of the list. */
  function CountFlagged(books: seq<Book>): nat
    decreases |books|
  {
    if books == [] then 0
    else CountFlagged(books[..|books| - 1]) + (if books[|books| - 1].overdue then 1 else 0)
  }

  /** Appending one record adds one to the count exactly when that record is flagged. */
  lemma CountFlaggedSnoc(books: seq<Book>, b: Book)
    ensures CountFlagged(books + [b]) == CountFlagged(books) + (if b.overdue then 1 else 0)
  {
    assert (books + [b])[..|books|] == books;
  }

  /** The count is the size of the "overdue" view. */
  lemma {:induction false} CountFlaggedIsOverdueView(books: seq<Book>)
    ensures CountFlagged(books) == |FilterByStatus(books, "overdue")|
    decreases |books|
  {
    if books != [] {
      var n := |books| - 1;
      assert books == books[..n] + [books[n]];
      CountFlaggedIsOverdueView(books[..n]);
      FilterSnoc(books[..n], books[n], IsFlagged);
    }
  }

  /** Right after a sweep on day `today`, the "overdue" view shows exactly the records that
      are checked out with a due date before `today`. */
  lemma OverdueViewAfterSweep(books: seq<Book>, today: int)
    ensures var r := FilterByStatus(Swept(books, today), "overdue");
            (forall i :: 0 <= i < |r| ==> IsOverdue(r[i], today)) &&
            (forall i :: 0 <= i < |books| && IsOverdue(books[i], today) ==>
               books[i].(overdue := true) in r)
  {
    var s := Swept(books, today);
    var r := FilterByStatus(s, "overdue");
    forall i | 0 <= i < |r|
      ensures IsOverdue(r[i], today)
    {
      assert multiset(r)[r[i]] > 0;
      assert r[i] in multiset(s);
      var k :| 0 <= k < |s| && s[k] == r[i];
      assert s[k] == books[k].(overdue := IsOverdue(books[k], today));
    }
    forall i | 0 <= i < |books| && IsOverdue(books[i], today)
      ensures books[i].(overdue := true) in r
    {
      assert s[i] == books[i].(overdue := true);
      assert s[i] in multiset(s);
      assert multiset(r)[s[i]] > 0;
    }
  }

  /** Every record is shown by exactly one of the two status views. */
  lemma {:induction false} StatusViewsPartition(books: seq<Book>)
    ensures multiset(FilterByStatus(books, "available")) + multiset(FilterByStatus(books, "checked-out")) ==
            multiset(books)
    ensures |FilterByStatus(books, "available")| + |FilterByStatus(books, "checked-out")| == |books|
  {
    var a := FilterByStatus(books, "available");
    var c := FilterByStatus(books, "checked-out");
    assert multiset(a) + multiset(c) == multiset(books) by {
      forall b
        ensures (multiset(a) + multiset(c))[b] == multiset(books)[b]
      {
      }
    }
    assert |multiset(a) + multiset(c)| == |multiset(books)|;
  }

  /** Three example records, relative to day `today`: A is
      available, B is checked out and was due yesterday, C is checked out and is due next
      week. */
  function ExampleA(today: int): Book
  {
    Book("1", "A", "Ann", NoIsbn, Available, None, today - 30, false)
  }

  function ExampleB(today: int): Book
  {
    Book("2", "B", "Bob", NoIsbn, CheckedOut, Some(today - 1), today - 30, false)
  }

  function ExampleC(today: int): Book
  {
    Book("3", "C", "Cy", NoIsbn, CheckedOut, Some(today + 7), today - 30, false)
  }

  lemma SweepExampleFlags(today: int)
    ensures Swept([ExampleA(today), ExampleB(today), ExampleC(today)], today) ==
            [ExampleA(today), ExampleB(today).(overdue := true), ExampleC(today)]
  {
    var s := Swept([ExampleA(today), ExampleB(today), ExampleC(today)], today);
    assert s[0] == ExampleA(today) && s[1] == ExampleB(today).(overdue := true) && s[2] == ExampleC(today);
  }

  /** The "overdue" view of three records of which only the middle one is flagged shows
      that one alone. */
  lemma {:induction false} OverdueViewOfThree(a: Book, b: Book, c: Book)
    requires !a.overdue && b.overdue && !c.overdue
    ensures FilterByStatus([a, b, c], "overdue") == [b]
  {
    assert Filter([c], IsFlagged) == [] by {
      FilterCons(c, [], IsFlagged);
      assert [c] == [c] + [];
    }
    assert Filter([b, c], IsFlagged) == [b] by {
      FilterCons(b, [c], IsFlagged);
      assert [b, c] == [b] + [c];
    }
    FilterCons(a, [b, c], IsFlagged);
    assert [a, b, c] == [a] + [b, c];
  }

  /** The example records swept: after today's sweep only B is flagged, and the
      "overdue" view shows B alone. */
  lemma SweepExample(today: int)
    ensures var s := Swept([ExampleA(today), ExampleB(today), ExampleC(today)], today);
            s == [ExampleA(today), ExampleB(today).(overdue := true), ExampleC(today)] &&
            FilterByStatus(s, "overdue") == [ExampleB(today).(overdue := true)]
  {
    SweepExampleFlags(today);
    OverdueViewOfThree(ExampleA(today), ExampleB(today).(overdue := true), ExampleC(today));
  }

  // ---------------------------------------------------------------------------------
  // RFID / ISBN lookup

  datatype ScanResult = MissingInput | NoMatch | Match(book: Book)

  /** The lookup for the scanner box's content `input`: blank input is refused, otherwise
      the first record whose ISBN equals the trimmed input is reported. */
  function Scan(books: seq<Book>, input: string): (r: ScanResult)
    ensures r == MissingInput <==> IsBlank(input)
    ensures r == NoMatch <==> !IsBlank(input) && forall i :: 0 <= i < |books| ==> books[i].isbn != Trim(input)
    ensures r.Match? ==>
      r.book.isbn == Trim(input) &&
      exists i :: 0 <= i < |books| && books[i] == r.book &&
                  forall j :: 0 <= j < i ==> books[j].isbn != Trim(input)
  {
    TrimEmptyIffBlank(input);
    var q := Trim(input);
    if q == [] then MissingInput
    else
      match FirstIndex(books, (b: Book) => b.isbn == q)
      case None => NoMatch
      case Some(i) => Match(books[i])
  }

  // ---------------------------------------------------------------------------------
  // Recommendations

  predicate IsCheckedOut(b: Book)
  {
    b.status == CheckedOut
  }

  /** The first three checked-out records in list order (named `lastCheckedOut` in the
      source; as records are added at the front they are the most recently added ones). */
  function FirstCheckedOut(books: seq<Book>): (r: seq<Book>)
    ensures |r| <= 3
    ensures r <= Filter(books, IsCheckedOut)
    ensures |r| == 3 || r == Filter(books, IsCheckedOut)
    ensures r == [] <==> forall i :: 0 <= i < |books| ==> !IsCheckedOut(books[i])
  {
    FilterEmptyIff(books, IsCheckedOut);
    Take(Filter(books, IsCheckedOut), 3)
  }

  /** The distinct authors of the picked records. */
  function Authors(picked: seq<Book>): set<string>
  {
    set c | c in picked :: c.author
  }

  /** The heuristic's test: by an author of a picked record, or available and not (by id)
      one of the picked records. */
  predicate Recommendable(b: Book, picked: seq<Book>)
  {
    b.author in Authors(picked) ||
    (b.status == Available && !(exists c :: c in picked && c.id == b.id))
  }

  /** The heuristic applies to lists of at least three records with a checked-out one. */
  predicate Recommends(books: seq<Book>)
  {
    |books| >= 3 && FirstCheckedOut(books) != []
  }

  /** The recommendations shown under the list. */
  function Recommendations(books: seq<Book>): (r: seq<Book>)
    ensures !Recommends(books) ==> r == []
    ensures Recommends(books) ==> 1 <= |r| <= 5
    ensures IsSubsequence(r, books)
    ensures forall i :: 0 <= i < |r| ==> Recommendable(r[i], FirstCheckedOut(books))
    ensures Recommends(books) && |r| < 5 ==>
      forall i :: 0 <= i < |books| && Recommendable(books[i], FirstCheckedOut(books)) ==> books[i] in r
    ensures Recommends(books) ==> r <= Filter(books, (b: Book) => Recommendable(b, FirstCheckedOut(books)))
    ensures Recommends(books) && |r| < 5 ==>
      r == Filter(books, (b: Book) => Recommendable(b, FirstCheckedOut(books)))
  {
    if |books| < 3 then []
    else
      var picked := FirstCheckedOut(books);
      if picked == [] then []
      else
        var p := (b: Book) => Recommendable(b, FirstCheckedOut(books));
        var all := Filter(books, p);
        FilterMember(books, IsCheckedOut, picked[0]);
        assert p(picked[0]);
        FilterEmptyIff(books, p);
        FilterKeeps(books, p);
        FilterSpec(books, p);
        TakeIsSubsequence(all, 5);
        SubsequenceTransitive(Take(all, 5), all, books);
        Take(all, 5)
  }
}

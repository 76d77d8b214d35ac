/** The book record of the library catalog and the effect of each catalog operation on the
    ordered list of records, as functions from the old list to the new one. The class in
    library.dfy performs these changes in place and is proved against these functions.
    Dates are day numbers; the current day, the new record's id and the user's answers to
    the confirmation dialogs are inputs. */
module Catalog {
  import opened Sequences
  import opened Text

  datatype Status = Available | CheckedOut

  /** The text stored in a record's `status` field. */
  function StatusName(s: Status): string
  {
    match s
    case Available => "available"
    case CheckedOut => "checked-out"
  }

  datatype Book = Book(
    id: string,
    title: string,
    author: string,
    isbn: string,
    status: Status,
    dueDate: Option<int>,
    dateAdded: int,
    overdue: bool)

  /** A checkout lasts this many days. */
  const LoanDays: int := 14

  /** The ISBN stored when none was entered. */
  const NoIsbn: string := "N/A"

  /** A record is flagged overdue only while it is checked out with a due date. */
  predicate FlagConsistent(b: Book)
  {
    b.overdue ==> b.status == CheckedOut && b.dueDate.Some?
  }

  predicate AllFlagsConsistent(books: seq<Book>)
  {
    forall i :: 0 <= i < |books| ==> FlagConsistent(books[i])
  }

  /** A due date exactly while checked out, and the overdue flag consistent with both. */
  predicate LoanConsistent(b: Book)
  {
    (b.dueDate.Some? <==> b.status == CheckedOut) && FlagConsistent(b)
  }

  predicate WellFormed(books: seq<Book>)
  {
    forall i :: 0 <= i < |books| ==> LoanConsistent(books[i])
  }

  /** The guard of adding and editing: title and author are not blank once trimmed. */
  predicate HasTitleAndAuthor(title: string, author: string)
  {
    Trim(title) != [] && Trim(author) != []
  }

  /** The stored ISBN: the trimmed input, or "N/A" when that is empty. */
  function IsbnOrNone(isbn: string): string
  {
    var t := Trim(isbn);
    if t == [] then NoIsbn else t
  }

  /** The stored ISBN is "N/A" exactly when the input is blank (or is "N/A" once trimmed),
      and the trimmed input otherwise. */
  lemma IsbnOrNoneSpec(isbn: string)
    ensures IsbnOrNone(isbn) == NoIsbn <==> IsBlank(isbn) || Trim(isbn) == NoIsbn
    ensures IsbnOrNone(isbn) != NoIsbn ==> IsbnOrNone(isbn) == Trim(isbn)
  {
    TrimEmptyIffBlank(isbn);
  }

  /** `find`/`findIndex` by id: the position of the first record with that id. */
  function FindById(books: seq<Book>, id: string): (r: Option<nat>)
    ensures r.Some? ==> r.value < |books| && books[r.value].id == id &&
                        forall j :: 0 <= j < r.value ==> books[j].id != id
    ensures r.None? <==> forall j :: 0 <= j < |books| ==> books[j].id != id
  {
    FirstIndex(books, (b: Book) => b.id == id)
  }

  /** Two lists with the same ids at the same positions find the same record. */
  lemma FindByIdSameIds(a: seq<Book>, b: seq<Book>, id: string)
    requires |a| == |b|
    requires forall k :: 0 <= k < |a| ==> a[k].id == b[k].id
    ensures FindById(a, id) == FindById(b, id)
  {
    var fa, fb := FindById(a, id), FindById(b, id);
    if fa.Some? && fb.Some? {
      assert !(fa.value < fb.value) && !(fb.value < fa.value);
    }
  }

  // ---------------------------------------------------------------------------------
  // Add (`addBook`)

  /** The list after adding a record with the given raw form inputs. */
  function AfterAdd(books: seq<Book>, title: string, author: string, isbn: string,
                    id: string, today: int): (r: seq<Book>)
    ensures !HasTitleAndAuthor(title, author) ==> r == books
    ensures HasTitleAndAuthor(title, author) ==>
      |r| == |books| + 1 && r[1..] == books &&
      r[0].id == id && r[0].title == Trim(title) && r[0].author == Trim(author) &&
      r[0].isbn == IsbnOrNone(isbn) && r[0].status == Available &&
      r[0].dueDate == None && r[0].dateAdded == today && !r[0].overdue
  {
    if !HasTitleAndAuthor(title, author) then books
    else [Book(id, Trim(title), Trim(author), IsbnOrNone(isbn), Available, None, today, false)] + books
  }

  lemma AddPreservesWellFormed(books: seq<Book>, title: string, author: string, isbn: string,
                               id: string, today: int)
    requires WellFormed(books)
    ensures WellFormed(AfterAdd(books, title, author, isbn, id, today))
  {
    var r := AfterAdd(books, title, author, isbn, id, today);
    if HasTitleAndAuthor(title, author) {
      assert forall k :: 1 <= k < |r| ==> r[k] == books[k - 1];
    }
  }

  // ---------------------------------------------------------------------------------
  // Edit (`updateBook`)

  /** The list after saving the edit form for the record with id `id`. */
  function AfterUpdate(books: seq<Book>, id: string, title: string, author: string,
                       isbn: string): (r: seq<Book>)
    ensures |r| == |books|
    ensures !HasTitleAndAuthor(title, author) || FindById(books, id).None? ==> r == books
    ensures HasTitleAndAuthor(title, author) && FindById(books, id).Some? ==>
      var i := FindById(books, id).value;
      (forall k :: 0 <= k < |books| && k != i ==> r[k] == books[k]) &&
      r[i].title == Trim(title) && r[i].author == Trim(author) && r[i].isbn == IsbnOrNone(isbn) &&
      r[i].id == books[i].id && r[i].status == books[i].status &&
      r[i].dueDate == books[i].dueDate && r[i].dateAdded == books[i].dateAdded &&
      r[i].overdue == books[i].overdue
  {
    if !HasTitleAndAuthor(title, author) then books
    else
      match FindById(books, id)
      case None => books
      case Some(i) =>
        books[i := books[i].(title := Trim(title), author := Trim(author), isbn := IsbnOrNone(isbn))]
  }

  lemma UpdatePreservesWellFormed(books: seq<Book>, id: string, title: string, author: string,
                                  isbn: string)
    requires WellFormed(books)
    ensures WellFormed(AfterUpdate(books, id, title, author, isbn))
  {
  }

  // ---------------------------------------------------------------------------------
  // Checkout and return (`checkoutBook`, `returnBook`)

  /** Checkout acts on the first record with the id, and only when it is available. */
  predicate CanCheckout(books: seq<Book>, id: string)
  {
    match FindById(books, id)
    case None => false
    case Some(i) => books[i].status == Available
  }

  /** Return acts on the first record with the id, and only when it is checked out. */
  predicate CanReturn(books: seq<Book>, id: string)
  {
    match FindById(books, id)
    case None => false
    case Some(i) => books[i].status == CheckedOut
  }

  /** The list after a checkout request that the user answered with `confirmed` on day
      `today`. */
  function AfterCheckout(books: seq<Book>, id: string, confirmed: bool, today: int): (r: seq<Book>)
    ensures |r| == |books|
    ensures !(confirmed && CanCheckout(books, id)) ==> r == books
    ensures confirmed && CanCheckout(books, id) ==>
      var i := FindById(books, id).value;
      (forall k :: 0 <= k < |books| && k != i ==> r[k] == books[k]) &&
      r[i].status == CheckedOut && r[i].dueDate == Some(today + LoanDays) && !r[i].overdue &&
      r[i].id == books[i].id && r[i].title == books[i].title && r[i].author == books[i].author &&
      r[i].isbn == books[i].isbn && r[i].dateAdded == books[i].dateAdded
  {
    if !confirmed || !CanCheckout(books, id) then books
    else
      var i := FindById(books, id).value;
      books[i := books[i].(status := CheckedOut, dueDate := Some(today + LoanDays), overdue := false)]
  }

  /** The list after a return request that the user answered with `confirmed`. */
  function AfterReturn(books: seq<Book>, id: string, confirmed: bool): (r: seq<Book>)
    ensures |r| == |books|
    ensures !(confirmed && CanReturn(books, id)) ==> r == books
    ensures confirmed && CanReturn(books, id) ==>
      var i := FindById(books, id).value;
      (forall k :: 0 <= k < |books| && k != i ==> r[k] == books[k]) &&
      r[i].status == Available && r[i].dueDate == None && !r[i].overdue &&
      r[i].id == books[i].id && r[i].title == books[i].title && r[i].author == books[i].author &&
      r[i].isbn == books[i].isbn && r[i].dateAdded == books[i].dateAdded
  {
    if !confirmed || !CanReturn(books, id) then books
    else
      var i := FindById(books, id).value;
      books[i := books[i].(status := Available, dueDate := None, overdue := false)]
  }

  /** Checking out a record that was just checked out changes nothing. */
  lemma CheckoutTwiceIsNoop(books: seq<Book>, id: string, today: int, confirmed: bool, later: int)
    ensures var once := AfterCheckout(books, id, true, today);
            AfterCheckout(once, id, confirmed, later) == once
  {
    var once := AfterCheckout(books, id, true, today);
    FindByIdSameIds(books, once, id);
  }

  /** Returning a record that was just returned changes nothing. */
  lemma ReturnTwiceIsNoop(books: seq<Book>, id: string, confirmed: bool)
    ensures var once := AfterReturn(books, id, true);
            AfterReturn(once, id, confirmed) == once
  {
    var once := AfterReturn(books, id, true);
    FindByIdSameIds(books, once, id);
  }

  /** On a well-formed list, returning a record right after checking it out restores the
      list. */
  lemma ReturnUndoesCheckout(books: seq<Book>, id: string, today: int)
    requires WellFormed(books) && CanCheckout(books, id)
    ensures AfterReturn(AfterCheckout(books, id, true, today), id, true) == books
  {
    var once := AfterCheckout(books, id, true, today);
    FindByIdSameIds(books, once, id);
    var i := FindById(books, id).value;
    assert LoanConsistent(books[i]);
  }

  lemma CheckoutPreservesWellFormed(books: seq<Book>, id: string, confirmed: bool, today: int)
    requires WellFormed(books)
    ensures WellFormed(AfterCheckout(books, id, confirmed, today))
  {
  }

  lemma ReturnPreservesWellFormed(books: seq<Book>, id: string, confirmed: bool)
    requires WellFormed(books)
    ensures WellFormed(AfterReturn(books, id, confirmed))
  {
  }

  // ---------------------------------------------------------------------------------
  // Delete (`deleteBook`)

  /** The list after a delete request that the user answered with `confirmed`: every record
      with the id is removed. */
  function AfterDelete(books: seq<Book>, id: string, confirmed: bool): (r: seq<Book>)
    ensures !confirmed || FindById(books, id).None? ==> r == books
    ensures confirmed ==> IsSubsequence(r, books)
    ensures confirmed ==> forall i :: 0 <= i < |r| ==> r[i].id != id
    ensures confirmed ==> forall b :: multiset(r)[b] == if b.id == id then 0 else multiset(books)[b]
  {
    if !confirmed then books
    else if FindById(books, id).None? then
      SubsequenceReflexive(books);
      books
    else
      var keep := (b: Book) => b.id != id;
      FilterSpec(books, keep);
      Filter(books, keep)
  }

  lemma DeletePreservesWellFormed(books: seq<Book>, id: string, confirmed: bool)
    requires WellFormed(books)
    ensures WellFormed(AfterDelete(books, id, confirmed))
  {
    var r := AfterDelete(books, id, confirmed);
    forall i | 0 <= i < |r|
      ensures LoanConsistent(r[i])
    {
      assert r[i] in multiset(r);
      assert r[i] in multiset(books);
    }
  }

  // ---------------------------------------------------------------------------------
  // The overdue sweep (`checkOverdueBooks`)

  /** The definition the overdue flag caches. */
  predicate IsOverdue(b: Book, today: int)
  {
    b.status == CheckedOut && b.dueDate.Some? && b.dueDate.value < today
  }

  /** The list after the sweep on day `today`: each flag recomputed, nothing else touched. */
  function Swept(books: seq<Book>, today: int): (r: seq<Book>)
    ensures |r| == |books|
    ensures forall i :: 0 <= i < |books| ==>
      r[i].overdue == IsOverdue(books[i], today) && r[i] == books[i].(overdue := r[i].overdue)
    decreases |books|
  {
    if books == [] then []
    else [books[0].(overdue := IsOverdue(books[0], today))] + Swept(books[1..], today)
  }

  /** A list that agrees with the sweep record by record is the swept list. */
  lemma SweptPointwise(books: seq<Book>, swept: seq<Book>, today: int)
    requires |swept| == |books|
    requires forall k :: 0 <= k < |books| ==> swept[k] == books[k].(overdue := IsOverdue(books[k], today))
    ensures swept == Swept(books, today)
  {
    var s := Swept(books, today);
    assert forall k :: 0 <= k < |books| ==> swept[k] == s[k];
  }

  /** A second sweep on the same day changes nothing. */
  lemma SweepIdempotent(books: seq<Book>, today: int)
    ensures Swept(Swept(books, today), today) == Swept(books, today)
  {
    var once := Swept(books, today);
    var twice := Swept(once, today);
    assert forall i :: 0 <= i < |once| ==> twice[i] == once[i];
  }

  /** After the sweep every flag is consistent, whatever the list held before. */
  lemma SweepEstablishesFlags(books: seq<Book>, today: int)
    ensures AllFlagsConsistent(Swept(books, today))
  {
  }

  lemma SweepPreservesWellFormed(books: seq<Book>, today: int)
    requires WellFormed(books)
    ensures WellFormed(Swept(books, today))
  {
  }

  // ---------------------------------------------------------------------------------
  // Import (`importData`) and export (`exportData`)

  /** What the chosen file turned out to be once read and parsed. */
  datatype ImportFile =
    | NoFile
    | Unparsable
    | NotAnArray
    | RecordArray(records: seq<Book>)

  datatype ImportOutcome = NothingChosen | InvalidFormat | Declined | Imported

  function ImportOutcomeOf(file: ImportFile, confirmed: bool): ImportOutcome
  {
    match file
    case NoFile => NothingChosen
    case Unparsable => InvalidFormat
    case NotAnArray => InvalidFormat
    case RecordArray(_) => if confirmed then Imported else Declined
  }

  /** The list after an import: the file's records, swept, when the file holds an array and
      the user confirmed; otherwise the list as it was. */
  function AfterImport(books: seq<Book>, file: ImportFile, confirmed: bool, today: int): seq<Book>
  {
    if ImportOutcomeOf(file, confirmed) == Imported then Swept(file.records, today) else books
  }

  /** The export file holds the list itself (serialisation assumed lossless). */
  function Export(books: seq<Book>): ImportFile
  {
    RecordArray(books)
  }

  /** Importing an export reproduces the list exactly when its flags are already those of
      the import day; in general it reproduces the list with its flags recomputed. */
  lemma ExportImportRoundTrip(books: seq<Book>, current: seq<Book>, today: int)
    ensures AfterImport(current, Export(books), true, today) == Swept(books, today)
    ensures AfterImport(current, Export(books), true, today) == books <==>
            forall i :: 0 <= i < |books| ==> books[i].overdue == IsOverdue(books[i], today)
  {
    var r := Swept(books, today);
    if forall i :: 0 <= i < |books| ==> books[i].overdue == IsOverdue(books[i], today) {
      assert forall i :: 0 <= i < |books| ==> r[i] == books[i];
    }
  }
}

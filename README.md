# NextGen Library Hub: catalog store and login checks in Dafny

This project models the two parts of the NextGen Library Hub web page that hold logic:

- **The catalog store** (`LibrarySystem` in `js/app.js`). It keeps an ordered list of book
  records, most recently added first. The store supports these operations:
  - add, edit, check out, return, delete;
  - the overdue sweep, which recomputes each record's cached `overdue` flag;
  - keyword search and the status filter;
  - the RFID/ISBN lookup;
  - the recommendation heuristic;
  - import of a backup file.
- **The login and sign-up checks** (`auth/auth.js`). These are the field checks made before
  a request goes to the identity service, and the table that maps the service's error codes
  to messages.

Files:

- `sequences.dfy` (module `Sequences`): JavaScript's `filter`, `findIndex` and `slice(0, n)`,
  and the notion of an order-preserving subsequence used in the contracts.
- `text.dfy` (module `Text`): `trim`, `toLowerCase` and `includes`.
- `catalog.dfy` (module `Catalog`): the `Book` record and one function per mutating
  operation. Each function maps the old list to the new one. Lemmas beside them prove
  invariants, idempotence and the checkout/return round trip.
- `queries.dfy` (module `Queries`): the read-only views (search, status filter, ISBN
  lookup, recommendations) and their lemmas.
- `library.dfy` (module `LibraryStore`): the class `Library`. Its field `books` is changed
  in place by each method. Each method is proved against the matching `Catalog` function.
  Each method also keeps the class invariant: a record is flagged overdue only while it is
  checked out with a due date. The status filter (`FilterBooks`) relies on it: every
  record its "overdue" view shows is checked out with a due date. The overdue sweep is a `while` loop that rewrites one
  record at a time and counts the flagged records.
- `auth.dfy` (module `Auth`): the login check, the sign-up check and the error-message
  table.

Inputs from outside are parameters:

- what the user typed into the form fields;
- the current day, as a day number (dates are whole days);
- the id of a new record (the source uses the current time in milliseconds);
- the user's answer to each confirmation dialog, as a `bool`;
- the parsed content of an import file.

## Model

| member | source | states |
|---|---|---|
| `Text.TrimStartSpec` | js/app.js:40-42 | removing leading white space leaves a suffix of the input, every removed character is white space, and the result does not start with white space |
| `Text.TrimEndSpec` | js/app.js:40-42 | removing trailing white space leaves a prefix of the input, every removed character is white space, and the result does not end with white space |
| `Text.TrimSpec` | js/app.js:40-42 | the trimmed string is the block of the input left between leading and trailing white space, with every removed character white space and no white space at either end |
| `Text.TrimEmptyIffBlank` | js/app.js:44 | trimming yields the empty string exactly when every character is white space (the `!title` test after `trim`) |
| `Text.TrimIdempotent` | js/app.js:40-42 | trimming a trimmed string changes nothing |
| `Text.LowerChar` | js/app.js:160 | a lower-cased character is never a capital; a capital moves to its small letter, 32 code points on, and every other character is kept |
| `Text.Lower` | js/app.js:160 | lower-casing keeps the length, leaves no capital, keeps every other character in place and replaces each capital by its small letter |
| `Text.LowerIdempotent` | js/app.js:160-170 | lower-casing twice is lower-casing once |
| `Text.ContainsIffOccurs` | js/app.js:168-170 | `includes` holds exactly when the query occurs at some position of the string |
| `Catalog.IsbnOrNoneSpec` | js/app.js:42-53 | the stored ISBN is the trimmed input, or "N/A" exactly when the input is blank (or trims to "N/A" itself) |
| `Catalog.FindById` | js/app.js:97 | the lookup returns the position of the first record with the id, or nothing exactly when no record has it |
| `Catalog.AfterAdd` | js/app.js:39-60 | a blank title or author leaves the list unchanged; otherwise exactly one record is put in front of the old list, with the trimmed title and author, the ISBN or "N/A", status available, no due date, not overdue, added today |
| `Catalog.AddPreservesWellFormed` | js/app.js:49-60 | adding keeps every record's due date present exactly while checked out, and its flag consistent |
| `Catalog.AfterUpdate` | js/app.js:86-108 | a blank title or author, or an unknown id, changes nothing; otherwise only title, author and ISBN of the first record with the id change, and every other field and record stays as it was |
| `Catalog.UpdatePreservesWellFormed` | js/app.js:97-101 | editing keeps the record invariant |
| `Catalog.AfterCheckout` | js/app.js:112-127 | without confirmation, or when the first record with the id is missing or not available, nothing changes; otherwise that record alone becomes checked out, due 14 days after today, not overdue, with its other fields kept |
| `Catalog.AfterReturn` | js/app.js:131-144 | without confirmation, or when the first record with the id is missing or not checked out, nothing changes; otherwise that record alone becomes available, without due date, not overdue, with its other fields kept |
| `Catalog.CheckoutTwiceIsNoop` | js/app.js:113-114 | checking out a record that was just checked out changes nothing |
| `Catalog.ReturnTwiceIsNoop` | js/app.js:132-133 | returning a record that was just returned changes nothing |
| `Catalog.ReturnUndoesCheckout` | js/app.js:112-144 | on a well-formed list, a confirmed return right after a confirmed checkout gives back the original list |
| `Catalog.CheckoutPreservesWellFormed` | js/app.js:116-122 | checkout keeps the record invariant |
| `Catalog.ReturnPreservesWellFormed` | js/app.js:135-138 | return keeps the record invariant |
| `Sequences.FilterSpec` | js/app.js:152 | `filter` keeps the elements that pass the test, in their order, each as often as in the list, and nothing else |
| `Catalog.AfterDelete` | js/app.js:147-157 | without confirmation or with an unknown id nothing changes; with confirmation the result keeps the old order and holds every record without that id exactly as often as before, and none with it |
| `Catalog.DeletePreservesWellFormed` | js/app.js:152 | deleting keeps the record invariant |
| `Catalog.Swept` | js/app.js:238-256 | the sweep keeps the length, order and every field but the flag, and sets each flag to "checked out, with a due date, and that date before today" |
| `Catalog.SweptPointwise` | js/app.js:242-249 | any list that agrees with the sweep record by record, each flag recomputed and every other field kept, is the swept list |
| `Catalog.SweepIdempotent` | js/app.js:242-249 | a second sweep on the same day changes nothing |
| `Catalog.SweepEstablishesFlags` | js/app.js:242-249 | after the sweep no record is flagged unless checked out with a due date, whatever the list held before |
| `Catalog.SweepPreservesWellFormed` | js/app.js:242-249 | the sweep keeps the record invariant |
| `Catalog.ExportImportRoundTrip` | js/app.js:279-311 | importing an exported list gives the list with its flags recomputed for the import day, which is the list itself exactly when its flags already match that day |
| `Queries.Search` | js/app.js:160-174 | an empty query shows the whole list; otherwise the result keeps list order and holds every record whose lower-cased title, author or ISBN contains the lower-cased query, as often as in the list, and no other |
| `Queries.SearchIgnoresCase` | js/app.js:160 | a query and its lower-cased form show the same records |
| `Queries.SearchFindsOccurrences` | js/app.js:167-171 | a record is shown exactly when the lower-cased query occurs at some position of one of its three lower-cased fields |
| `Queries.FilterByStatus` | js/app.js:177-188 | "all" shows the whole list; "overdue" shows the flagged records; any other value shows the records whose status text equals it; always in list order and with every selected record as often as in the list |
| `Queries.CountFlaggedSnoc` | js/app.js:242-245 | visiting one more record raises the count by one exactly when that record is flagged |
| `Queries.CountFlaggedIsOverdueView` | js/app.js:240-245 | the number of flagged records counted by the sweep equals the size of the "overdue" view |
| `Queries.OverdueViewAfterSweep` | js/app.js:182 | right after a sweep the "overdue" view shows only records checked out and due before today, and every such record |
| `Queries.StatusViewsPartition` | js/app.js:185 | the "available" and "checked-out" views together hold every record once |
| `Queries.SweepExampleFlags` | js/app.js:242-249 | for three records A (available, no due date), B (checked out, due yesterday) and C (checked out, due in a week), the sweep on day `today` flags B alone and leaves A and C unflagged and otherwise unchanged |
| `Queries.OverdueViewOfThree` | js/app.js:182 | the "overdue" view of three records where only the middle one is flagged shows that one alone |
| `Queries.SweepExample` | js/app.js:238-249 | an available record, one due yesterday and one due next week: the sweep flags only the second, and the "overdue" view shows it alone |
| `Queries.Scan` | js/app.js:191-203 | blank input is refused; otherwise the lookup reports the first record whose ISBN equals the trimmed input, or that no record has it |
| `Queries.FirstCheckedOut` | js/app.js:263-265 | at most three records, a prefix of the checked-out records in list order, all of them when fewer than three, empty exactly when none is checked out |
| `Queries.Recommendations` | js/app.js:259-276 | nothing for fewer than three records or none checked out; otherwise between one and five records in list order, each by an author of the first three checked-out records or available and not one of them; the records shown are the first qualifying ones in list order (a prefix of all qualifying records, duplicates included), and exactly all of them when fewer than five are shown |
| `LibraryStore.Library.constructor` | js/app.js:3-11 | the store starts from the stored list swept for today, with consistent flags |
| `LibraryStore.Library.AddBook` | js/app.js:39-60 | reports whether a record was added and leaves the list as `Catalog.AfterAdd` gives it |
| `LibraryStore.Library.UpdateBook` | js/app.js:86-108 | reports whether a record changed and leaves the list as `Catalog.AfterUpdate` gives it |
| `LibraryStore.Library.CheckoutBook` | js/app.js:112-127 | reports whether a record was checked out and leaves the list as `Catalog.AfterCheckout` gives it |
| `LibraryStore.Library.ReturnBook` | js/app.js:131-144 | reports whether a record was returned and leaves the list as `Catalog.AfterReturn` gives it |
| `LibraryStore.Library.DeleteBook` | js/app.js:147-157 | reports whether records were removed and leaves the list as `Catalog.AfterDelete` gives it |
| `LibraryStore.SweepStep` | js/app.js:242-249 | one pass of the sweep's loop body turns a list swept up to record `i` into one swept up to record `i + 1`, and raises the count exactly when record `i` is overdue |
| `LibraryStore.SweepDone` | js/app.js:238-256 | once every record is visited, the list is the swept list, its flags are consistent, and the count is the size of the "overdue" view |
| `LibraryStore.Library.CheckOverdueBooks` | js/app.js:238-256 | rewrites the records one at a time into `Catalog.Swept` of the old list and returns the number it flagged, which is the size of the "overdue" view |
| `LibraryStore.Library.FilterBooks` | js/app.js:176-188 | shows the status filter's view of the store, and by the store's invariant every record in the "overdue" view is checked out with a due date |
| `LibraryStore.Library.ImportData` | js/app.js:293-321 | no file does nothing; an unparsable file or one not holding an array is refused; a declined dialog changes nothing; otherwise the list becomes the file's records, swept for today |
| `Auth.LoginCheck` | auth/auth.js:33-57 | the standard panel proceeds exactly when e-mail and password are both filled in, else asks to fill in all fields; the USSD panel proceeds exactly when the phone number is valid, else rejects the number |
| `Auth.SignupCheck` | auth/auth.js:78-97 | each message appears exactly under its condition in the order of the checks: a missing field first, then a password mismatch, then a password shorter than 6, then an invalid phone number; otherwise proceed |
| `Auth.SamePhoneRule` | auth/auth.js:54-57 | once the other fields pass, sign-up and the USSD login accept the same numbers and reject a non-empty invalid one with the same message |
| `Auth.PasswordLengthBoundary` | auth/auth.js:89-92 | a password of exactly 6 characters passes, one of 5 is rejected as too short |
| `Auth.AuthErrorMessage` | auth/auth.js:141-155 | each of the five known codes maps to its fixed message, and every other code to the generic one |
| `Auth.ErrorMessagesDistinguishCodes` | auth/auth.js:142-154 | the generic message is returned exactly for unknown codes, and no two known codes share a message |

Two behaviours of the code to note:

- Import checks only that the file holds an array (`js/app.js:301`). It does not check that
  the elements are shaped like records.
- Import re-runs the overdue sweep (`js/app.js:307`). Export followed by import is therefore
  the identity only when the flags already match the import day. `Catalog.ExportImportRoundTrip`
  states both halves.

## Left out

- Rendering, the alert pop-ups, the edit dialog's pre-filling (`editBook`), the scroll and
  highlight of the lookup, and the injected CSS are user interface. The methods report
  success as a `bool` instead of showing a message.
- Writing to browser storage after each change is not modelled. Reading it at start-up is
  a constructor parameter.
- `JSON.stringify`/`JSON.parse`, the download of the export file and `FileReader` are
  library and browser calls. The parsed import file is a parameter (`Catalog.ImportFile`),
  and serialisation is taken to be lossless.
- The 24-hour timer that re-runs the sweep, and the scanner button's animation timer, are
  not modelled. The sweep is a method that can be called at any time.
- Dates are day numbers. The source builds the due date from the local date plus 14 days,
  then writes it out as a UTC date string. It compares due dates with today's UTC date
  string. Near midnight these can differ by a day. The model uses one day number for both.
- Catalog.Book: `status` is one of two values. An imported record with another status
  text, or with missing fields, cannot be represented.
- Text.LowerChar: maps only the Basic Latin and Latin-1 capitals, each to the character 32
  code points on; every other character, of whatever script, is kept.
- Text.Lower: lower-cases only Basic Latin and Latin-1 capitals. JavaScript's
  `toLowerCase` also maps the other scripts, including characters that lower-case to two
  characters.
- Auth.SignupCheck: lengths count characters. JavaScript counts UTF-16 code units, so a
  password or phone number with characters outside the Basic Multilingual Plane is longer
  there than here.
- Auth.LoginCheck: the USSD panel's phone-number length counts characters, where
  JavaScript's `phone.length` counts UTF-16 code units, as for the sign-up check.
- LibraryStore.Library.ImportData: an array whose elements are not records (a `null`, a
  number, an empty object) passes the array test and replaces the list before the sweep
  runs. The sweep or the rendering then fails, and the page reports "Invalid file format"
  although the list in memory, and for an empty object also in storage, has already been
  replaced. Such elements cannot be represented here, so the model has only the accepted
  case with well-shaped records, and does not capture a failure reported after the list
  changed.
- Records are values. The source mutates the record object that `find` returns. No other
  reference to a record exists, so the difference cannot be observed.
- All identity-service and document-store calls are external services: sign-in, account
  creation, profile update and the user document. The USSD login stub, tab switching and
  the language selector are left out as well.
- The count the sweep prints to the console is returned by
  `LibraryStore.Library.CheckOverdueBooks` instead of being printed.

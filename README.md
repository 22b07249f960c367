# Library service: late fees and the borrow lifecycle, in Dafny

This project models `library_service.py`, the business logic of a small
library management system. The model covers:

- cataloguing a book (`add_book_to_catalog`);
- borrowing and returning a copy (`borrow_book_by_patron`,
  `return_book_by_patron`);
- billing an overdue loan (`calculate_late_fee_for_book`);
- the patron status report (`get_patron_status_report`);
- catalog search (`search_books_in_catalog`);
- the six-digit library-card check that borrow, return and the status
  report apply (library_service.py lines 80, 130 and 364); the fee
  calculator does not check the card.

The database the service calls is modelled as an in-memory store. It is the
class `Store.Library`, with a sequence of books and a sequence of borrow
records, in the order the database lists them. Its methods are the database
calls the service makes, so borrow, return and add change the store in
place, as the service does.

Times are whole seconds, passed in as `now`: one reading of the clock per
call. Money is whole cents: a late fee is 50 cents a day for the first 7
days overdue and 100 cents a day after that, capped at 1500 per book. A
database write that may fail is an explicit boolean parameter, or the
`StorageFaults` pair for borrow.

`Store.ConsistentStore` is the invariant the store keeps. It holds when:

- every copy of a book is either on the shelf or out on one open loan;
- shelf counts are never negative;
- book ids and ISBNs are unique;
- every record names a catalogued book;
- no patron holds more than five open loans.

Borrow, return and add keep this invariant when the database accepts the
writes. A borrow or return whose shelf-count update fails after its record
write breaks it. Lemmas prove both of these.

Modules, one per file:

- `Text` (text.dfy): Python's `isdigit`, `strip`, `lower`, substring `in`
  and string order, over ASCII.
- `Records` (records.dfy): books, borrow records, the card check and the
  store queries.
- `LateFees` (late_fees.dfy): the fee calculator.
- `Store` (store.dfy): the store class and the consistency invariant.
- `Lending` (lending.dfy): borrow and return.
- `Catalog` (catalog.dfy): adding books and search.
- `StatusReports` (status_report.dfy): the patron report.
- `Scenarios` (scenarios.dfy): sequences of calls that the repository's
  tests exercise.

Two consequences of the code are worth stating plainly:

- A loan 8 days overdue is charged $4.50: seven days at $0.50 plus one
  at $1.00 (library_service.py, lines 252-259).
- The loan that billing and return act on is the open loan with the latest
  borrow date. When several share that date, the stable descending sort at
  lines 150 and 235 keeps them in listing order, so the one listed first
  is taken.

Search behaves as the code is written. The second pass keeps a book only
when its lower-cased title (or author) occurs in the lower-cased term. The
first pass keeps it only when the term occurs in the field. Together they
mean case-insensitive equality, not substring search (`Catalog.BothPassesMeanWanted`).

## Model

| member | source | states |
|---|---|---|
| Text.IsDigitString | library_service.py:44 | `isdigit` holds exactly for a non-empty string whose every character is a digit |
| Text.StripEmptyIffBlank | library_service.py:29-36 | a string strips to nothing exactly when all its characters are whitespace, so the blank-field test is "all whitespace" |
| Text.StripIsTrimmedSlice | library_service.py:61 | a stripped string is a contiguous piece of the original, no longer than it, and, unless empty, starts and ends with a non-whitespace character |
| Text.StripKeepsTrimmed | library_service.py:61 | a string with no whitespace at either end is stored unchanged by the strip |
| Text.Lower | library_service.py:312 | lower-casing keeps the length, turns each capital A-Z into its small letter, keeps every other character, and leaves no capital in the result |
| Text.LowerIsIdempotent | library_service.py:312 | lower-casing an already lower-cased string changes nothing |
| Text.LowerEqualIffSameLetters | library_service.py:333 | two strings lower-case alike exactly when they have the same length and agree at each position up to the case of ASCII letters |
| Text.IsSubstring | library_service.py:312-316 | `needle in hay` holds exactly when the needle occurs at some position of the haystack |
| Text.MutualContainmentIsEquality | library_service.py:333 | two strings each contained in the other are equal, and conversely |
| Text.LexLessEqTotal | library_service.py:324 | any two title keys are comparable, so sorting by title is well defined |
| Text.LexLessEqTransitive | library_service.py:324 | the title order is transitive |
| Records.ValidPatronIdMeansSixDigits | library_service.py:80 | a card number is accepted exactly when it is six characters, all digits |
| Records.FindBook | library_service.py:84-86 | the lookup by id finds nothing exactly when no book has the id, and otherwise the first book with it |
| Records.HasIsbn | library_service.py:56-58 | the duplicate check fires exactly when some catalogued book has the ISBN |
| Records.ActiveLoansOf | library_service.py:373-376 | the currently borrowed list holds only the patron's open loans and every one of them; its length is the patron's open-loan count |
| Records.ActiveLoansOfCounts | library_service.py:373-376 | each record appears in the currently borrowed list exactly as many times as it is stored when it is an open loan of the patron, and never otherwise |
| Records.CurrentLoan | library_service.py:227-239 | no loan is selected exactly when the patron has no open loan of the book; otherwise the selected one is such a loan with the latest borrow date, and every such loan listed before it was borrowed strictly earlier |
| LateFees.FeeForDays | library_service.py:249-263 | the tiered fee equals min($15, $0.50 × min(d, 7) + $1.00 × max(0, d − 7)), is at most $15, is positive exactly when d > 0 and reaches the cap exactly from 19 days on |
| LateFees.FeeMonotone | library_service.py:249-263 | more overdue days never cost less |
| LateFees.FeeScheduleExamples | library_service.py:252-259 | 0, 7, 8, 10, 15 and 25 days cost $0, $3.50, $4.50, $6.50, $11.50 and $15.00; the tests check 25, 7 and 10 days at tests/R5_test.py:81, :108 and :135, and 15 days at R7_test.py:35-36 |
| LateFees.DaysOverdue | library_service.py:248 | the day count is the whole number of days elapsed since the due time, rounded down |
| LateFees.AssessLateFee | library_service.py:202-269 | no open loan gives the no-record status; not past the due time gives the not-overdue status with nothing owed; otherwise the days overdue are the whole days since the current loan's due time and the fee is the tiered fee for them, never above $15 |
| LateFees.UnderADayOverdueOwesNothing | library_service.py:245-248 | a loan less than a day past due is reported as calculated, with zero days and zero fee |
| LateFees.FeeGrowsWithTime | library_service.py:241-263 | for fixed records, the fee and the days overdue never decrease as time passes |
| Store.NextBookId | library_service.py:61 | the id given to a new book is positive and larger than every id in use |
| Store.ConsistentStoreBoundsCopies | library_service.py:167-169 | in a consistent store every shelf count lies between zero and the book's total |
| Store.CountsAfterAppend | library_service.py:102 | appending a record adds one to exactly the patron and book counts it is an open loan for |
| Store.CountsAfterStamp | library_service.py:160 | closing an open record subtracts one from exactly its patron's and its book's open-loan counts |
| Store.UnreferencedBookHasNoLoans | library_service.py:61 | a book no record names has no copy out |
| Store.OpenLoanIsCounted | library_service.py:168 | a book with an open loan has at least one copy out |
| Store.FindBookIgnoresCopies | library_service.py:106 | changing a shelf count leaves every lookup by id unchanged |
| Store.AdjustKeepsKeysUnique | library_service.py:106 | changing a shelf count keeps ids and ISBNs unique |
| Store.BorrowKeepsConsistency | library_service.py:84-110 | a borrow that passes every check and writes both changes keeps the store consistent |
| Store.PartialBorrowBreaksConsistency | library_service.py:102-108 | a borrow record written without its shelf-count update leaves the store inconsistent |
| Store.StampKeepsLoanLimit | library_service.py:160 | closing a loan keeps every patron within five open loans |
| Store.ReturnBalancesShelf | library_service.py:160-163 | closing the loan and putting a copy back keeps every book's copies accounted for |
| Store.ReturnKeepsConsistency | library_service.py:160-169 | a completed return keeps the store consistent, and before it the book's shelf count was below its total, so the overflow guard cannot fire |
| Store.AddBookKeepsConsistency | library_service.py:55-61 | adding a book with a fresh id, an unused ISBN and every copy on the shelf keeps the store consistent |
| Store.Library.InsertBook | library_service.py:61-65 | the insert reports success unless refused, and only a successful insert appends the book |
| Store.Library.InsertBorrowRecord | library_service.py:102-104 | the insert reports success unless refused, and only a successful insert appends the record |
| Store.Library.UpdateBookAvailability | library_service.py:106-108 | a successful update adds the delta to that book's shelf count and changes nothing else |
| Store.Library.UpdateBorrowRecordReturnDate | library_service.py:160 | the selected record gets the return time and nothing else changes |
| Lending.BorrowBook | library_service.py:67-110 | the checks run in source order (card, book, copy on the shelf, under five loans) and a rejection changes nothing; a refused record insert changes nothing; otherwise one record is appended: an open loan of this book by this patron, borrowed now and due 14 days later, raising the patron's open-loan count by one; a refused shelf update keeps the record and leaves the store inconsistent; success also takes one copy off the shelf, returns the due time (now + 14 days) and keeps the store consistent |
| Lending.PartialReturnBreaksConsistency | library_service.py:160-165 | closing the loan without putting the copy back leaves the store inconsistent |
| Lending.ReturnBook | library_service.py:117-190 | the checks run in source order (card, book, open loan) and a rejection changes nothing; otherwise the fee of the current loan is taken from the records before the change; that loan is closed and one copy goes back on the shelf; the overflow guard compares the shelf count read before the update; a successful return reports a late fee exactly when the current loan was at least one whole day overdue, with that day count and the tiered fee for it, at most $15; on a consistent store the return succeeds exactly when the shelf update is accepted, and then the store stays consistent |
| Catalog.ValidateNewBook | library_service.py:28-48 | a new book passes the field checks exactly when: its stripped title has 1 to 200 characters; its stripped author has 1 to 100; its ISBN is 13 digits; and it has 1 to 2^31 − 1 copies; a failing book gets the error of the first failing check in the order title blank, title too long, author blank, author too long, ISBN length, ISBN digits, copy count |
| Catalog.AddBook | library_service.py:14-65 | a failed field check or a duplicate ISBN is reported and changes nothing; otherwise a book with the next id, the stripped title and author and every copy on the shelf is appended unless the insert is refused; the store stays consistent |
| Catalog.Filter | library_service.py:309-321 | the books a pass keeps are books of its input that the pass accepts |
| Catalog.FilterCounts | library_service.py:309-321 | a pass keeps every copy of each accepted book and no copy of a rejected one |
| Catalog.BothPassesMeanWanted | library_service.py:309-342 | a book survives both passes exactly when: for a title or author search, its field equals the stripped term ignoring case, within the length limit; for an ISBN search, its ISBN is exactly the 13-digit term |
| Catalog.AppendKeepsSorted | library_service.py:324 | appending a book whose title key is at least every key keeps a sorted list sorted |
| Catalog.InsertByTitle | library_service.py:324 | inserting a book into the list adds exactly that book |
| Catalog.LastKeyIsGreatest | library_service.py:324 | in a sorted list, a key at least the last key is at least every key |
| Catalog.InsertedFrontStaysBelowLast | library_service.py:324 | inserting a smaller book into the front of a sorted list keeps every key of the front at most the last key |
| Catalog.InsertKeepsSorted | library_service.py:324 | insertion into a sorted list keeps it sorted |
| Catalog.SortByTitle | library_service.py:324 | the result is sorted by lower-cased title and is a permutation of the input |
| Catalog.FilterKeepsSorted | library_service.py:326-342 | the second pass over the sorted results keeps them sorted |
| Catalog.TwoPassesFindWanted | library_service.py:309-342 | the second pass run over any reordering of the first pass's results keeps exactly the books the search wants, copy for copy |
| Catalog.SearchBooks | library_service.py:280-344 | a blank term finds nothing; otherwise the result is sorted by lower-cased title and is a permutation of the catalog's books that the search wants, all of them catalogued |
| StatusReports.OverdueCount | library_service.py:382-386 | the overdue count never exceeds the number of open loans |
| StatusReports.FeesDueBounds | library_service.py:379-387 | the fees due are at least $0.50 and at most $15.00 per overdue loan |
| StatusReports.ReportBoundedByLoanLimit | library_service.py:373-392 | in a consistent store a report lists at most five loans and owes at most $75.00 |
| StatusReports.PatronStatusReport | library_service.py:349-393 | an invalid card gives the error report with nothing listed; otherwise the report lists the patron's open loans and counts and sums exactly those billed as overdue, within the per-loan bounds |
| Scenarios.ShelfRestored | library_service.py:163 | taking a copy off the shelf and putting it back leaves the catalog as it was |
| Scenarios.BorrowThenReturn | tests/R4_test.py:35-54 | on a consistent store, a borrow succeeds exactly when all its checks pass; the return that follows succeeds, the shelf counts are back where they started and the store stays consistent |
| Scenarios.LoanReturnedTenDaysLate | tests/R5_test.py:113-137 | a loan returned 24 days after it started is billed 10 days and $6.50, and once closed it cannot be selected again |
| Scenarios.CatalogueTwice | R1_test.py:32-38 | a valid book added to an empty store gets id 1; adding its ISBN again is refused as a duplicate |
| Scenarios.LendOnlyBook | tests/R4_test.py:86-92 | a valid card borrows the only book: one copy leaves the shelf and one open loan is recorded |
| Scenarios.ReturnTwice | tests/R4_test.py:167-187 | returning that loan 24 days after borrowing (10 days overdue) charges $6.50, as tests/R5_test.py:113-137 expects, and restores the shelf; a second return of the same book is refused as not borrowed |
| Scenarios.CatalogueBorrowReturn | tests/R4_test.py:167-187 | catalogue, refuse the duplicate (as the duplicate-ISBN test of R1_test.py expects), borrow, return ten days late for $6.50 (the 10-day case of tests/R5_test.py) with every copy back, then refuse the second return |
| Scenarios.FeesDueHasNoOverallCap | R7_test.py:13-54 | two loans 10 and 15 days overdue give two overdue books and $18.00 due: the $15.00 cap is per book, not per report |

## Left out

- The `database` module is not part of this model. The store class stands for it, and its listing order is taken to be insertion order.
- `datetime.now()` becomes the `now` parameter, read once per call. The source reads the clock separately for the fee and for the return stamp.
- Money is whole cents, not floating-point dollars. The rounding of the fee to two decimals has no counterpart.
- Message texts are reduced to error and receipt constructors. The due date's print format is not modelled.
- `strip`, `lower` and `isdigit` are modelled over ASCII only. Unicode whitespace, case mapping and digits are not.
- `total_copies` of a non-integer type (including Python's `bool` counting as an integer) has no counterpart: copies are always integers.
- The payment and refund operations and the payment gateway are not part of `library_service.py`. The test file that mocks them is not modelled.
- Records.ActiveLoansOf: the contract fixes which loans are listed and how often, not that they keep store order; the report's list order is not promised.
- Catalog.SearchBooks: a search type other than title, author or ISBN makes the source fail on an unbound variable. The model's `SearchType` has only the three supported kinds.
- Catalog.SearchBooks: the order among books whose lower-cased titles are equal is not stated. The model's insertion sort keeps it, as Python's stable sort does.
- Lending.ReturnBook: the stamp of the return date cannot fail in the model. The source ignores that call's outcome anyway.
- Lending.ReturnBook: the stamp picks the selected record by position. The source picks it by patron, book and due date, which names the same record unless two open loans share all three.
- The borrowing-history section of the status report (R7_test.py:103-117) is not produced by `get_patron_status_report` and is not modelled.
- The web routes, the end-to-end tests and `clearDB.py` are outside the service logic.
- Concurrent calls are not modelled: each operation runs alone on the store.

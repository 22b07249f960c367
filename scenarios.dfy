/** Sequences of service calls, checked against what the repository's tests
    expect of them. */
module Scenarios {
  import opened Text
  import opened Records
  import opened LateFees
  import opened Store
  import opened Lending
  import opened Catalog
  import opened StatusReports

  /** Taking a copy of a book off the shelf and putting it back leaves the
      catalogue as it was. */
  lemma ShelfRestored(books: seq<Book>, j: nat)
    requires j < |books|
    ensures var taken := books[j := Adjusted(books[j], -1)];
            taken[j := Adjusted(taken[j], 1)] == books
  {
    var taken := books[j := Adjusted(books[j], -1)];
    assert Adjusted(taken[j], 1) == books[j];
  }

  /** A borrow followed by a return of the same book, with no storage
      failure, puts the shelf back exactly as it was and keeps the store
      consistent. */
  method BorrowThenReturn(db: Library, patron: string, bookId: int, borrowedAt: int, returnedAt: int)
    returns (borrowed: Result<int, LendingError>, returned: Option<Result<Receipt, LendingError>>)
    requires db.Valid()
    modifies db
    ensures db.Valid()
    ensures borrowed.Ok? <==> BorrowAllowed(old(db.books), old(db.records), patron, bookId)
    ensures borrowed.Ok? ==> returned.Some? && returned.value.Ok? && db.books == old(db.books)
    ensures borrowed.Err? ==> returned.None? && db.books == old(db.books) && db.records == old(db.records)
  {
    ghost var books0 := db.books;
    borrowed := BorrowBook(db, patron, bookId, borrowedAt, NoFaults);
    if borrowed.Err? {
      return borrowed, None;
    }
    ghost var j := FindBook(books0, bookId).value;
    FindBookIgnoresCopies(books0, j, -1, bookId);
    assert IsActiveLoanOf(db.records[|db.records| - 1], patron, bookId);
    assert ReturnAllowed(db.books, db.records, patron, bookId);
    assert db.Valid();
    var r := ReturnBook(db, patron, bookId, returnedAt, false);
    assert r.Ok?;
    assert db.Valid();
    ShelfRestored(books0, j);
    returned := Some(r);
  }

  /** A loan returned 24 days after it started is 10 days late and owes
      $6.50; once closed it can no longer be returned. */
  lemma LoanReturnedTenDaysLate(patron: string, bookId: int, start: int, later: int)
    ensures var loan := NewLoan(patron, bookId, start);
            && CurrentLoan([loan], patron, bookId) == Some(0)
            && AssessLateFee([loan], patron, bookId, start + 24 * SecondsPerDay) == FeeAssessment(650, 10, Calculated)
            && CurrentLoan([Stamped(loan, later)], patron, bookId).None?
  {
    var loan := NewLoan(patron, bookId, start);
    assert [loan][..0] == [];
    assert DaysOverdue(loan.dueDate, start + 24 * SecondsPerDay) == 10;
  }

  /** Cataloguing a valid book into an empty store, then refusing its ISBN a
      second time. */
  method CatalogueTwice(db: Library, title: string, author: string, isbn: string, copies: int)
    returns (duplicate: Result<Book, CatalogError>)
    requires db.books == [] && db.records == []
    requires ValidateNewBook(title, author, isbn, copies).None?
    modifies db
    ensures duplicate == Err(DuplicateIsbn)
    ensures db.books == [Book(1, Strip(title), Strip(author), isbn, copies, copies)] && db.records == []
  {
    var added := AddBook(db, title, author, isbn, copies, false);
    assert NextBookId([]) == 1;
    assert db.books == [Book(1, Strip(title), Strip(author), isbn, copies, copies)];
    assert HasIsbn(db.books, isbn);
    duplicate := AddBook(db, title, author, isbn, copies, false);
  }

  /** The patron borrowing the only book of the store at time `start`. */
  method LendOnlyBook(db: Library, patron: string, b: Book, start: int)
    requires db.books == [b] && db.records == []
    requires ValidPatronId(patron) && b.availableCopies > 0
    modifies db
    ensures db.books == [Adjusted(b, -1)] && db.records == [NewLoan(patron, b.id, start)]
  {
    assert FindBook([b], b.id) == Some(0);
    var borrowed := BorrowBook(db, patron, b.id, start, NoFaults);
    assert borrowed.Ok?;
  }

  /** Returning that loan 24 days after it started, then trying once more
      at any time. */
  method ReturnTwice(db: Library, patron: string, b: Book, start: int, later: int)
    returns (receipt: Result<Receipt, LendingError>, secondReturn: Result<Receipt, LendingError>, shelfAfter: int)
    requires db.books == [Adjusted(b, -1)] && db.records == [NewLoan(patron, b.id, start)]
    requires ValidPatronId(patron) && b.availableCopies <= b.totalCopies
    modifies db
    ensures receipt == Ok(LateFeeCharged(10, 650))
    ensures secondReturn == Err(NotBorrowed)
    ensures shelfAfter == b.availableCopies
  {
    LoanReturnedTenDaysLate(patron, b.id, start, start + 24 * SecondsPerDay);
    assert FindBook(db.books, b.id) == Some(0);
    receipt := ReturnBook(db, patron, b.id, start + 24 * SecondsPerDay, false);
    assert receipt.Ok?;
    assert db.books == [b];
    shelfAfter := db.books[0].availableCopies;
    assert FindBook(db.books, b.id) == Some(0);
    secondReturn := ReturnBook(db, patron, b.id, later, false);
  }

  /** Cataloguing a book, refusing its ISBN a second time, borrowing it,
      returning it ten days late for $6.50 with every copy back on the
      shelf, and refusing a second return of the same loan. */
  method CatalogueBorrowReturn(title: string, author: string, isbn: string, copies: int,
                               patron: string, start: int, later: int)
    returns (duplicate: Result<Book, CatalogError>, receipt: Result<Receipt, LendingError>,
             secondReturn: Result<Receipt, LendingError>, shelfAfter: int)
    requires ValidateNewBook(title, author, isbn, copies).None?
    requires ValidPatronId(patron)
    ensures duplicate == Err(DuplicateIsbn)
    ensures receipt == Ok(LateFeeCharged(10, 650))
    ensures secondReturn == Err(NotBorrowed)
    ensures shelfAfter == copies
  {
    var db := new Library();
    duplicate := CatalogueTwice(db, title, author, isbn, copies);
    var b := Book(1, Strip(title), Strip(author), isbn, copies, copies);
    LendOnlyBook(db, patron, b, start);
    receipt, secondReturn, shelfAfter := ReturnTwice(db, patron, b, start, later);
  }

  /** Two loans 10 and 15 days overdue owe $6.50 + $11.50 = $18.00 in the
      report: the $15.00 cap applies per book, not to the total. */
  lemma FeesDueHasNoOverallCap()
    ensures var records := [BorrowRecord("123456", 1, -24 * SecondsPerDay, -10 * SecondsPerDay, None),
                            BorrowRecord("123456", 2, -29 * SecondsPerDay, -15 * SecondsPerDay, None)];
            var loans := ActiveLoansOf(records, "123456");
            OverdueCount(loans, records, "123456", 0) == 2
            && FeesDue(loans, records, "123456", 0) == 1800 > MaxFee
  {
    var r0 := BorrowRecord("123456", 1, -24 * SecondsPerDay, -10 * SecondsPerDay, None);
    var r1 := BorrowRecord("123456", 2, -29 * SecondsPerDay, -15 * SecondsPerDay, None);
    var records := [r0, r1];
    assert records[..1] == [r0];
    assert [r0][..0] == [];
    assert ActiveLoansOf([r0], "123456") == [r0];
    assert ActiveLoansOf(records, "123456") == records;
    assert CurrentLoan([r0], "123456", 1) == Some(0);
    assert CurrentLoan(records, "123456", 1) == Some(0);
    assert CurrentLoan([r0], "123456", 2) == None;
    assert CurrentLoan(records, "123456", 2) == Some(1);
    assert DaysOverdue(r0.dueDate, 0) == 10;
    assert DaysOverdue(r1.dueDate, 0) == 15;
    assert AssessLateFee(records, "123456", 1, 0) == FeeAssessment(650, 10, Calculated);
    assert AssessLateFee(records, "123456", 2, 0) == FeeAssessment(1150, 15, Calculated);
    assert OverdueCount([r0], records, "123456", 0) == 1;
    assert FeesDue([r0], records, "123456", 0) == 650;
  }
}

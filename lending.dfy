/** The borrow/return lifecycle: `borrow_book_by_patron` and
    `return_book_by_patron`, as state changes on the store. */
module Lending {
  import opened Records
  import opened LateFees
  import opened Store

  /** Which write of the store refuses, standing for the database calls
      whose outcome the service cannot see in advance. */
  datatype StorageFaults = StorageFaults(insertFails: bool, availabilityUpdateFails: bool)

  const NoFaults := StorageFaults(false, false)

  datatype LendingError =
    | InvalidPatronId          // card number is not six digits
    | BookNotFound             // no book has this id
    | NotAvailable             // no copy on the shelf
    | BorrowLimitReached       // five loans already open
    | NotBorrowed              // no open loan of this book by this patron
    | RecordInsertFailed       // the borrow record was refused
    | AvailabilityUpdateFailed // the shelf-count update was refused
    | CopiesExceedTotal        // the shelf count would pass the total

  /** What a successful return reports: the overdue days and fee only when
      at least one whole day is overdue. */
  datatype Receipt = NoLateFee | LateFeeCharged(daysOverdue: nat, feeCents: nat)

  function ReceiptFor(a: FeeAssessment): Receipt {
    if a.daysOverdue > 0 then LateFeeCharged(a.daysOverdue, a.feeCents) else NoLateFee
  }

  /** Every check of `borrow_book_by_patron` passes: a valid card, a
      catalogued book with a copy on the shelf, fewer than five open loans. */
  predicate BorrowAllowed(books: seq<Book>, records: seq<BorrowRecord>, patron: string, bookId: int) {
    && ValidPatronId(patron)
    && FindBook(books, bookId).Some?
    && books[FindBook(books, bookId).value].availableCopies > 0
    && ActiveLoanCount(records, patron) < MaxActiveLoans
  }

  /** `borrow_book_by_patron(patron, bookId)` at time `now`. The checks run
      in order and a rejected borrow changes nothing; a successful one
      appends one open record due 14 days later and takes one copy off the
      shelf. When the availability update fails the record stays. */
  method BorrowBook(db: Library, patron: string, bookId: int, now: int, faults: StorageFaults)
    returns (result: Result<int, LendingError>)
    modifies db
    ensures !ValidPatronId(patron) ==> result == Err(InvalidPatronId)
    ensures ValidPatronId(patron) && FindBook(old(db.books), bookId).None? ==> result == Err(BookNotFound)
    ensures ValidPatronId(patron) && FindBook(old(db.books), bookId).Some? ==>
              var b := old(db.books)[FindBook(old(db.books), bookId).value];
              && (b.availableCopies <= 0 ==> result == Err(NotAvailable))
              && ((b.availableCopies > 0 && ActiveLoanCount(old(db.records), patron) >= MaxActiveLoans)
                    ==> result == Err(BorrowLimitReached))
    ensures BorrowAllowed(old(db.books), old(db.records), patron, bookId) ==>
              && (faults.insertFails ==> result == Err(RecordInsertFailed))
              && (!faults.insertFails && faults.availabilityUpdateFails ==> result == Err(AvailabilityUpdateFailed))
              && (faults == NoFaults ==> result == Ok(now + LoanPeriod))
    ensures result.Ok? || result == Err(AvailabilityUpdateFailed) ==>
              db.records == old(db.records) + [NewLoan(patron, bookId, now)]
    ensures result.Ok? || result == Err(AvailabilityUpdateFailed) ==>
              var r := db.records[|db.records| - 1];
              && IsActiveLoanOf(r, patron, bookId) && r.borrowDate == now && r.dueDate == now + 14 * SecondsPerDay
              && ActiveLoanCount(db.records, patron) == ActiveLoanCount(old(db.records), patron) + 1
    ensures result.Ok? ==> result.value == now + 14 * SecondsPerDay
    ensures result.Ok? ==>
              var j := FindBook(old(db.books), bookId).value;
              db.books == old(db.books)[j := Adjusted(old(db.books)[j], -1)]
    ensures !result.Ok? ==> db.books == old(db.books)
    ensures result.Err? && result.error != AvailabilityUpdateFailed ==> db.records == old(db.records)
    ensures old(db.Valid()) ==> (db.Valid() <==> result != Err(AvailabilityUpdateFailed))
  {
    if !ValidPatronId(patron) {
      return Err(InvalidPatronId);
    }
    var found := FindBook(db.books, bookId);
    if found.None? {
      return Err(BookNotFound);
    }
    var book := db.books[found.value];
    if book.availableCopies <= 0 {
      return Err(NotAvailable);
    }
    var currentBorrowed := ActiveLoanCount(db.records, patron);
    if currentBorrowed >= MaxActiveLoans {
      return Err(BorrowLimitReached);
    }
    var dueDate := now + LoanPeriod;
    ghost var books0, records0 := db.books, db.records;
    var inserted := db.InsertBorrowRecord(BorrowRecord(patron, bookId, now, dueDate, None), faults.insertFails);
    if !inserted {
      return Err(RecordInsertFailed);
    }
    var updated := db.UpdateBookAvailability(bookId, -1, faults.availabilityUpdateFails);
    if !updated {
      if ConsistentStore(books0, records0) {
        PartialBorrowBreaksConsistency(books0, records0, patron, bookId, now);
      }
      return Err(AvailabilityUpdateFailed);
    }
    if ConsistentStore(books0, records0) {
      BorrowKeepsConsistency(books0, records0, patron, bookId, now);
    }
    return Ok(dueDate);
  }

  /** Every check of `return_book_by_patron` before it writes passes: a
      valid card, a catalogued book, an open loan of it by this patron. */
  predicate ReturnAllowed(books: seq<Book>, records: seq<BorrowRecord>, patron: string, bookId: int) {
    && ValidPatronId(patron)
    && FindBook(books, bookId).Some?
    && CurrentLoan(records, patron, bookId).Some?
  }

  /** A return whose record was closed but whose availability update failed
      leaves the store inconsistent: one copy fewer out than missing. */
  lemma PartialReturnBreaksConsistency(books: seq<Book>, records: seq<BorrowRecord>, patron: string, bookId: int, now: int)
    requires ConsistentStore(books, records)
    requires ReturnAllowed(books, records, patron, bookId)
    ensures var i := CurrentLoan(records, patron, bookId).value;
            !ConsistentStore(books, records[i := Stamped(records[i], now)])
  {
    var i := CurrentLoan(records, patron, bookId).value;
    var j := FindBook(books, bookId).value;
    CountsAfterStamp(records, i, now, patron, bookId);
    assert books[j].availableCopies + LoansOfBook(records[i := Stamped(records[i], now)], books[j].id)
           == books[j].totalCopies - 1;
  }

  /** `return_book_by_patron(patron, bookId)` at time `now`. Rejections
      change nothing. Otherwise the fee of the current loan is assessed
      first, then that loan is closed and a copy goes back on the shelf;
      the overflow guard compares the shelf count read before the update,
      so when it fires the store has already changed. */
  method ReturnBook(db: Library, patron: string, bookId: int, now: int, availabilityUpdateFails: bool)
    returns (result: Result<Receipt, LendingError>)
    modifies db
    ensures !ValidPatronId(patron) ==> result == Err(InvalidPatronId)
    ensures ValidPatronId(patron) && FindBook(old(db.books), bookId).None? ==> result == Err(BookNotFound)
    ensures (ValidPatronId(patron) && FindBook(old(db.books), bookId).Some?
             && CurrentLoan(old(db.records), patron, bookId).None?) ==> result == Err(NotBorrowed)
    ensures !ReturnAllowed(old(db.books), old(db.records), patron, bookId) ==>
              db.books == old(db.books) && db.records == old(db.records)
    ensures ReturnAllowed(old(db.books), old(db.records), patron, bookId) ==>
              var i := CurrentLoan(old(db.records), patron, bookId).value;
              var j := FindBook(old(db.books), bookId).value;
              var b := old(db.books)[j];
              && db.records == old(db.records)[i := Stamped(old(db.records)[i], now)]
              && (availabilityUpdateFails ==> result == Err(AvailabilityUpdateFailed) && db.books == old(db.books))
              && (!availabilityUpdateFails ==> db.books == old(db.books)[j := Adjusted(b, 1)])
              && (!availabilityUpdateFails && b.availableCopies + 1 > b.totalCopies ==> result == Err(CopiesExceedTotal))
              && (!availabilityUpdateFails && b.availableCopies + 1 <= b.totalCopies ==>
                    result == Ok(ReceiptFor(AssessLateFee(old(db.records), patron, bookId, now))))
    ensures result.Ok? ==>
              var a := AssessLateFee(old(db.records), patron, bookId, now);
              && (result.value.LateFeeCharged? <==> a.daysOverdue > 0)
              && (result.value.LateFeeCharged? ==>
                    && result.value.daysOverdue == a.daysOverdue
                    && result.value.feeCents == FeeForDays(result.value.daysOverdue) <= MaxFee)
    ensures old(db.Valid()) && ReturnAllowed(old(db.books), old(db.records), patron, bookId) ==>
              (result.Ok? <==> !availabilityUpdateFails) && (db.Valid() <==> !availabilityUpdateFails)
    ensures old(db.Valid()) && !ReturnAllowed(old(db.books), old(db.records), patron, bookId) ==> db.Valid()
  {
    if !ValidPatronId(patron) {
      return Err(InvalidPatronId);
    }
    var found := FindBook(db.books, bookId);
    if found.None? {
      return Err(BookNotFound);
    }
    var book := db.books[found.value];
    var mostRecent := CurrentLoan(db.records, patron, bookId);
    if mostRecent.None? {
      return Err(NotBorrowed);
    }
    ghost var books0, records0 := db.books, db.records;
    var lateFee := AssessLateFee(db.records, patron, bookId, now);
    db.UpdateBorrowRecordReturnDate(mostRecent.value, now);
    if ConsistentStore(books0, records0) {
      ReturnKeepsConsistency(books0, records0, patron, bookId, now);
      if availabilityUpdateFails {
        PartialReturnBreaksConsistency(books0, records0, patron, bookId, now);
      }
    }
    var updated := db.UpdateBookAvailability(bookId, 1, availabilityUpdateFails);
    if !updated {
      return Err(AvailabilityUpdateFailed);
    }
    if book.availableCopies + 1 > book.totalCopies {
      return Err(CopiesExceedTotal);
    }
    return Ok(ReceiptFor(lateFee));
  }
}

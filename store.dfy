/** The in-memory store standing in for the SQLite database: a catalog of
    books and the history of borrow records, the writes the service makes to
    it, and the consistency the service's operations keep. */
module Store {
  import opened Records

  /** The record `insert_borrow_record` creates for a loan starting at `now`. */
  function NewLoan(patron: string, bookId: int, now: int): BorrowRecord {
    BorrowRecord(patron, bookId, now, now + LoanPeriod, None)
  }

  /** A record closed at time `t`. */
  function Stamped(r: BorrowRecord, t: int): BorrowRecord {
    r.(returnDate := Some(t))
  }

  /** A book after `update_book_availability(id, delta)`. */
  function Adjusted(b: Book, delta: int): Book {
    b.(availableCopies := b.availableCopies + delta)
  }

  /** The id the database assigns to the next inserted book: one more than
      the largest id in use. */
  function NextBookId(books: seq<Book>): (id: int)
    ensures id >= 1
    ensures forall k | 0 <= k < |books| :: books[k].id < id
  {
    if |books| == 0 then 1
    else
      var rest := NextBookId(books[..|books| - 1]);
      assert forall k | 0 <= k < |books| - 1 :: books[k] == books[..|books| - 1][k];
      if books[|books| - 1].id < rest then rest else books[|books| - 1].id + 1
  }

  ghost predicate UniqueIds(books: seq<Book>) {
    forall i, j | 0 <= i < j < |books| :: books[i].id != books[j].id
  }

  ghost predicate UniqueIsbns(books: seq<Book>) {
    forall i, j | 0 <= i < j < |books| :: books[i].isbn != books[j].isbn
  }

  /** Every copy of a book is either on the shelf or out on exactly one open
      loan; every record names a catalogued book; ids and ISBNs are unique;
      no patron holds more than five open loans. */
  ghost predicate ConsistentStore(books: seq<Book>, records: seq<BorrowRecord>) {
    && UniqueIds(books)
    && UniqueIsbns(books)
    && (forall k | 0 <= k < |records| :: FindBook(books, records[k].bookId).Some?)
    && (forall k | 0 <= k < |books| ::
          0 <= books[k].availableCopies
          && books[k].availableCopies + LoansOfBook(records, books[k].id) == books[k].totalCopies)
    && (forall patron :: ActiveLoanCount(records, patron) <= MaxActiveLoans)
  }

  /** In a consistent store every book has between none and all of its
      copies on the shelf. */
  lemma ConsistentStoreBoundsCopies(books: seq<Book>, records: seq<BorrowRecord>, k: nat)
    requires ConsistentStore(books, records) && k < |books|
    ensures 0 <= books[k].availableCopies <= books[k].totalCopies
  {
  }

  /** Appending a record adds one to the counts it is an open loan for. */
  lemma CountsAfterAppend(records: seq<BorrowRecord>, r: BorrowRecord, patron: string, bookId: int)
    ensures ActiveLoanCount(records + [r], patron)
              == ActiveLoanCount(records, patron) + (if r.patronId == patron && IsActive(r) then 1 else 0)
    ensures LoansOfBook(records + [r], bookId)
              == LoansOfBook(records, bookId) + (if r.bookId == bookId && IsActive(r) then 1 else 0)
  {
    assert (records + [r])[..|records|] == records;
  }

  /** Closing an open record takes one off the counts it was an open loan for
      and leaves every other count alone. */
  lemma {:induction false} CountsAfterStamp(records: seq<BorrowRecord>, i: nat, t: int, patron: string, bookId: int)
    requires i < |records| && IsActive(records[i])
    ensures ActiveLoanCount(records[i := Stamped(records[i], t)], patron)
              == ActiveLoanCount(records, patron) - (if records[i].patronId == patron then 1 else 0)
    ensures LoansOfBook(records[i := Stamped(records[i], t)], bookId)
              == LoansOfBook(records, bookId) - (if records[i].bookId == bookId then 1 else 0)
  {
    var n := |records| - 1;
    var after := records[i := Stamped(records[i], t)];
    if i == n {
      assert after[..n] == records[..n];
    } else {
      assert after[..n] == records[..n][i := Stamped(records[i], t)];
      CountsAfterStamp(records[..n], i, t, patron, bookId);
    }
  }

  /** A book that no record names has no copy out. */
  lemma {:induction false} UnreferencedBookHasNoLoans(records: seq<BorrowRecord>, bookId: int)
    requires forall k | 0 <= k < |records| :: records[k].bookId != bookId
    ensures LoansOfBook(records, bookId) == 0
  {
    if |records| > 0 {
      UnreferencedBookHasNoLoans(records[..|records| - 1], bookId);
    }
  }

  /** An open loan of a book counts as one of its copies out. */
  lemma {:induction false} OpenLoanIsCounted(records: seq<BorrowRecord>, k: nat)
    requires k < |records| && IsActive(records[k])
    ensures LoansOfBook(records, records[k].bookId) >= 1
  {
    var n := |records| - 1;
    if k < n {
      OpenLoanIsCounted(records[..n], k);
    }
  }

  /** Changing a book's shelf count leaves every lookup by id as it was. */
  lemma FindBookIgnoresCopies(books: seq<Book>, j: nat, delta: int, id: int)
    requires j < |books|
    ensures FindBook(books[j := Adjusted(books[j], delta)], id) == FindBook(books, id)
  {
    var books' := books[j := Adjusted(books[j], delta)];
    assert forall k | 0 <= k < |books| :: books'[k].id == books[k].id;
  }

  /** Changing a book's shelf count keeps ids and ISBNs unique. */
  lemma AdjustKeepsKeysUnique(books: seq<Book>, j: nat, delta: int)
    requires j < |books| && UniqueIds(books) && UniqueIsbns(books)
    ensures UniqueIds(books[j := Adjusted(books[j], delta)])
    ensures UniqueIsbns(books[j := Adjusted(books[j], delta)])
  {
    var books' := books[j := Adjusted(books[j], delta)];
    assert forall k | 0 <= k < |books| :: books'[k].id == books[k].id && books'[k].isbn == books[k].isbn;
  }

  /** A successful borrow (record appended, one copy taken off the shelf)
      keeps the store consistent. */
  lemma BorrowKeepsConsistency(books: seq<Book>, records: seq<BorrowRecord>, patron: string, bookId: int, now: int)
    requires ConsistentStore(books, records)
    requires FindBook(books, bookId).Some? && books[FindBook(books, bookId).value].availableCopies > 0
    requires ActiveLoanCount(records, patron) < MaxActiveLoans
    ensures var j := FindBook(books, bookId).value;
            ConsistentStore(books[j := Adjusted(books[j], -1)], records + [NewLoan(patron, bookId, now)])
  {
    var j := FindBook(books, bookId).value;
    var books' := books[j := Adjusted(books[j], -1)];
    var r := NewLoan(patron, bookId, now);
    var records' := records + [r];
    forall p ensures ActiveLoanCount(records', p) <= MaxActiveLoans {
      CountsAfterAppend(records, r, p, bookId);
    }
    forall k | 0 <= k < |books'|
      ensures 0 <= books'[k].availableCopies
      ensures books'[k].availableCopies + LoansOfBook(records', books'[k].id) == books'[k].totalCopies
    {
      CountsAfterAppend(records, r, patron, books[k].id);
    }
    AdjustKeepsKeysUnique(books, j, -1);
    forall k | 0 <= k < |records'| ensures FindBook(books', records'[k].bookId).Some? {
      FindBookIgnoresCopies(books, j, -1, records'[k].bookId);
      if k < |records| {
        assert records'[k] == records[k];
      }
    }
  }

  /** A borrow whose record was inserted but whose availability update failed
      leaves the store inconsistent: one more loan than missing copies. */
  lemma PartialBorrowBreaksConsistency(books: seq<Book>, records: seq<BorrowRecord>, patron: string, bookId: int, now: int)
    requires ConsistentStore(books, records)
    requires FindBook(books, bookId).Some?
    ensures !ConsistentStore(books, records + [NewLoan(patron, bookId, now)])
  {
    var j := FindBook(books, bookId).value;
    CountsAfterAppend(records, NewLoan(patron, bookId, now), patron, bookId);
    assert books[j].availableCopies + LoansOfBook(records + [NewLoan(patron, bookId, now)], books[j].id)
           == books[j].totalCopies + 1;
  }

  /** Closing an open record keeps every patron within the loan limit. */
  lemma StampKeepsLoanLimit(records: seq<BorrowRecord>, i: nat, now: int, records': seq<BorrowRecord>)
    requires i < |records| && IsActive(records[i]) && records' == records[i := Stamped(records[i], now)]
    requires forall p :: ActiveLoanCount(records, p) <= MaxActiveLoans
    ensures forall p :: ActiveLoanCount(records', p) <= MaxActiveLoans
  {
    forall p ensures ActiveLoanCount(records', p) <= MaxActiveLoans {
      CountsAfterStamp(records, i, now, p, 0);
    }
  }

  /** Closing an open loan of the book at `j` and putting one copy back on
      its shelf keeps every book's copies accounted for. */
  lemma ReturnBalancesShelf(books: seq<Book>, records: seq<BorrowRecord>, i: nat, j: nat, now: int,
                            books': seq<Book>, records': seq<BorrowRecord>)
    requires ConsistentStore(books, records)
    requires i < |records| && j < |books| && IsActive(records[i]) && records[i].bookId == books[j].id
    requires books' == books[j := Adjusted(books[j], 1)] && records' == records[i := Stamped(records[i], now)]
    ensures forall k | 0 <= k < |books'| ::
              0 <= books'[k].availableCopies
              && books'[k].availableCopies + LoansOfBook(records', books'[k].id) == books'[k].totalCopies
  {
    forall k | 0 <= k < |books'|
      ensures 0 <= books'[k].availableCopies
      ensures books'[k].availableCopies + LoansOfBook(records', books'[k].id) == books'[k].totalCopies
    {
      CountsAfterStamp(records, i, now, "", books[k].id);
      if k != j {
        assert books[k].id != books[j].id;
      }
    }
  }

  /** A successful return (the current loan closed, one copy back on the
      shelf) keeps the store consistent, and the shelf count before the
      return was below the total, so the overflow guard never fires. */
  lemma ReturnKeepsConsistency(books: seq<Book>, records: seq<BorrowRecord>, patron: string, bookId: int, now: int)
    requires ConsistentStore(books, records)
    requires FindBook(books, bookId).Some? && CurrentLoan(records, patron, bookId).Some?
    ensures var j := FindBook(books, bookId).value;
            books[j].availableCopies + 1 <= books[j].totalCopies
    ensures var j := FindBook(books, bookId).value;
            var i := CurrentLoan(records, patron, bookId).value;
            ConsistentStore(books[j := Adjusted(books[j], 1)], records[i := Stamped(records[i], now)])
  {
    var j := FindBook(books, bookId).value;
    var i := CurrentLoan(records, patron, bookId).value;
    var books' := books[j := Adjusted(books[j], 1)];
    var records' := records[i := Stamped(records[i], now)];
    OpenLoanIsCounted(records, i);
    StampKeepsLoanLimit(records, i, now, records');
    ReturnBalancesShelf(books, records, i, j, now, books', records');
    AdjustKeepsKeysUnique(books, j, 1);
    forall k | 0 <= k < |records'| ensures FindBook(books', records'[k].bookId).Some? {
      FindBookIgnoresCopies(books, j, 1, records'[k].bookId);
      assert records'[k].bookId == records[k].bookId;
    }
  }

  /** Cataloguing a new book with a fresh id and an unused ISBN, all copies on
      the shelf, keeps the store consistent. */
  lemma AddBookKeepsConsistency(books: seq<Book>, records: seq<BorrowRecord>, b: Book)
    requires ConsistentStore(books, records)
    requires b.id == NextBookId(books) && !HasIsbn(books, b.isbn)
    requires 0 <= b.availableCopies == b.totalCopies
    ensures ConsistentStore(books + [b], records)
  {
    var books' := books + [b];
    forall k | 0 <= k < |records| ensures records[k].bookId != b.id {
      assert books[FindBook(books, records[k].bookId).value].id == records[k].bookId;
    }
    UnreferencedBookHasNoLoans(records, b.id);
    forall k | 0 <= k < |records| ensures FindBook(books', records[k].bookId).Some? {
      assert books'[FindBook(books, records[k].bookId).value].id == records[k].bookId;
    }
  }

  class Library {
    var books: seq<Book>
    var records: seq<BorrowRecord>

    ghost predicate Valid()
      reads this
    {
      ConsistentStore(books, records)
    }

    constructor ()
      ensures books == [] && records == []
      ensures Valid()
    {
      books := [];
      records := [];
    }

    /** `insert_book`; `fails` stands for the database refusing the write. */
    method InsertBook(b: Book, fails: bool) returns (ok: bool)
      modifies this
      ensures ok == !fails
      ensures books == (if ok then old(books) + [b] else old(books))
      ensures records == old(records)
    {
      ok := !fails;
      if ok {
        books := books + [b];
      }
    }

    /** `insert_borrow_record`; `fails` stands for the database refusing the write. */
    method InsertBorrowRecord(r: BorrowRecord, fails: bool) returns (ok: bool)
      modifies this
      ensures ok == !fails
      ensures records == (if ok then old(records) + [r] else old(records))
      ensures books == old(books)
    {
      ok := !fails;
      if ok {
        records := records + [r];
      }
    }

    /** `update_book_availability(id, delta)`: adds `delta` to the book's
        shelf count; an id that names no book changes nothing. */
    method UpdateBookAvailability(id: int, delta: int, fails: bool) returns (ok: bool)
      modifies this
      ensures ok == !fails
      ensures books == (if ok && FindBook(old(books), id).Some?
                        then old(books)[FindBook(old(books), id).value := Adjusted(old(books)[FindBook(old(books), id).value], delta)]
                        else old(books))
      ensures records == old(records)
    {
      ok := !fails;
      var j := FindBook(books, id);
      if ok && j.Some? {
        books := books[j.value := Adjusted(books[j.value], delta)];
      }
    }

    /** `update_borrow_record_return_date`: closes the selected record. */
    method UpdateBorrowRecordReturnDate(i: nat, t: int)
      requires i < |records|
      modifies this
      ensures records == old(records)[i := Stamped(old(records)[i], t)]
      ensures books == old(books)
    {
      records := records[i := Stamped(records[i], t)];
    }
  }
}

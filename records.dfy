/** The two persisted entities of the library (books and borrow records),
    the patron-id check every operation shares, and the queries the service
    asks of the store. Times are whole seconds; money is whole cents. */
module Records {
  import opened Text

  datatype Option<+T> = None | Some(value: T)

  /** The `(success, message)` pair of the service, with the message reduced
      to which outcome it reports. */
  datatype Result<+T, +E> = Ok(value: T) | Err(error: E)

  const SecondsPerDay: int := 86400
  /** A loan is due 14 days after it starts. */
  const LoanPeriod: int := 14 * SecondsPerDay
  /** A patron may hold at most 5 books at once. */
  const MaxActiveLoans: nat := 5

  datatype Book = Book(
    id: int,
    title: string,
    author: string,
    isbn: string,
    totalCopies: int,
    availableCopies: int)

  /** `returnDate == None` marks a loan that is still open. */
  datatype BorrowRecord = BorrowRecord(
    patronId: string,
    bookId: int,
    borrowDate: int,
    dueDate: int,
    returnDate: Option<int>)

  /** The library-card check shared by borrow, return and the status report:
      present, all digits, exactly six characters. */
  predicate ValidPatronId(patron: string) {
    IsDigitString(patron) && |patron| == 6
  }

  lemma ValidPatronIdMeansSixDigits(patron: string)
    ensures ValidPatronId(patron) <==> |patron| == 6 && forall i | 0 <= i < 6 :: IsAsciiDigit(patron[i])
  {
  }

  predicate IsActive(r: BorrowRecord) {
    r.returnDate.None?
  }

  /** An open loan of `bookId` held by `patron`. */
  predicate IsActiveLoanOf(r: BorrowRecord, patron: string, bookId: int) {
    r.patronId == patron && r.bookId == bookId && IsActive(r)
  }

  /** `get_book_by_id`: the position of the first book with this id. */
  function FindBook(books: seq<Book>, id: int): (r: Option<nat>)
    ensures r.None? <==> forall k | 0 <= k < |books| :: books[k].id != id
    ensures r.Some? ==> r.value < |books| && books[r.value].id == id
    ensures r.Some? ==> forall k | 0 <= k < r.value :: books[k].id != id
  {
    if |books| == 0 then None
    else
      var found := FindBook(books[..|books| - 1], id);
      if found.Some? then found
      else if books[|books| - 1].id == id then Some(|books| - 1)
      else None
  }

  /** `get_book_by_isbn(isbn)` is not empty. */
  function HasIsbn(books: seq<Book>, isbn: string): (r: bool)
    ensures r <==> exists k | 0 <= k < |books| :: books[k].isbn == isbn
  {
    if |books| == 0 then false
    else HasIsbn(books[..|books| - 1], isbn) || books[|books| - 1].isbn == isbn
  }

  /** `get_patron_borrow_count`: how many open loans the patron holds. */
  function ActiveLoanCount(records: seq<BorrowRecord>, patron: string): nat {
    if |records| == 0 then 0
    else
      var last := records[|records| - 1];
      ActiveLoanCount(records[..|records| - 1], patron)
        + (if last.patronId == patron && IsActive(last) then 1 else 0)
  }

  /** How many copies of a book are out on open loans. */
  function LoansOfBook(records: seq<BorrowRecord>, bookId: int): nat {
    if |records| == 0 then 0
    else
      var last := records[|records| - 1];
      LoansOfBook(records[..|records| - 1], bookId)
        + (if last.bookId == bookId && IsActive(last) then 1 else 0)
  }

  /** The patron's open loans in store order: `get_patron_borrowed_books`
      filtered to the records without a return date. */
  function ActiveLoansOf(records: seq<BorrowRecord>, patron: string): (r: seq<BorrowRecord>)
    ensures |r| == ActiveLoanCount(records, patron)
    ensures forall k | 0 <= k < |r| :: r[k].patronId == patron && IsActive(r[k])
    ensures forall k | 0 <= k < |records| && records[k].patronId == patron && IsActive(records[k]) :: records[k] in r
    ensures forall x | x in r :: x in records
  {
    if |records| == 0 then []
    else
      var last := records[|records| - 1];
      var earlier := ActiveLoansOf(records[..|records| - 1], patron);
      assert forall k | 0 <= k < |records| - 1 :: records[k] == records[..|records| - 1][k];
      if last.patronId == patron && IsActive(last) then earlier + [last] else earlier
  }

  /** The patron's open loans keep every copy of each such record and
      nothing else, so each open loan is listed as often as it is stored. */
  lemma {:induction false} ActiveLoansOfCounts(records: seq<BorrowRecord>, patron: string, x: BorrowRecord)
    ensures multiset(ActiveLoansOf(records, patron))[x]
              == if x.patronId == patron && IsActive(x) then multiset(records)[x] else 0
  {
    if |records| > 0 {
      var n := |records| - 1;
      ActiveLoansOfCounts(records[..n], patron, x);
      assert records == records[..n] + [records[n]];
    }
  }

  /** The loan that billing and returning act on: among the patron's open
      loans of the book, the one with the latest borrow date, the earliest
      in store order when several share that date. */
  function CurrentLoan(records: seq<BorrowRecord>, patron: string, bookId: int): (r: Option<nat>)
    ensures r.None? <==> forall k | 0 <= k < |records| :: !IsActiveLoanOf(records[k], patron, bookId)
    ensures r.Some? ==> r.value < |records| && IsActiveLoanOf(records[r.value], patron, bookId)
    ensures r.Some? ==> forall k | 0 <= k < |records| && IsActiveLoanOf(records[k], patron, bookId) ::
                          records[k].borrowDate <= records[r.value].borrowDate
    ensures r.Some? ==> forall k | 0 <= k < r.value && IsActiveLoanOf(records[k], patron, bookId) ::
                          records[k].borrowDate < records[r.value].borrowDate
  {
    if |records| == 0 then None
    else
      var n := |records| - 1;
      var earlier := CurrentLoan(records[..n], patron, bookId);
      assert forall k | 0 <= k < n :: records[k] == records[..n][k];
      if IsActiveLoanOf(records[n], patron, bookId)
         && (earlier.None? || records[earlier.value].borrowDate < records[n].borrowDate)
      then Some(n)
      else earlier
  }
}

/** `get_patron_status_report`: a patron's open loans, how many of them are
    overdue, and the fees those loans owe, summed without an overall cap. */
module StatusReports {
  import opened Records
  import opened LateFees
  import opened Store

  /** The report; `invalidPatronId` marks the error-shaped report returned
      for a malformed card number. */
  datatype StatusReport = StatusReport(
    invalidPatronId: bool,
    currentlyBorrowed: seq<BorrowRecord>,
    totalFeesDue: nat,
    booksOverdue: nat)

  /** The assessment the report asks for one open loan: that of the loan's
      book for this patron, that is, of the patron's current loan of it. */
  function LoanAssessment(records: seq<BorrowRecord>, patron: string, loan: BorrowRecord, now: int): FeeAssessment {
    AssessLateFee(records, patron, loan.bookId, now)
  }

  /** How many of `loans` the report counts as overdue. */
  function OverdueCount(loans: seq<BorrowRecord>, records: seq<BorrowRecord>, patron: string, now: int): (n: nat)
    ensures n <= |loans|
  {
    if |loans| == 0 then 0
    else
      OverdueCount(loans[..|loans| - 1], records, patron, now)
        + (if LoanAssessment(records, patron, loans[|loans| - 1], now).daysOverdue > 0 then 1 else 0)
  }

  /** The sum of the fees of the overdue ones among `loans`. */
  function FeesDue(loans: seq<BorrowRecord>, records: seq<BorrowRecord>, patron: string, now: int): nat {
    if |loans| == 0 then 0
    else
      var a := LoanAssessment(records, patron, loans[|loans| - 1], now);
      FeesDue(loans[..|loans| - 1], records, patron, now) + (if a.daysOverdue > 0 then a.feeCents else 0)
  }

  /** Each overdue loan adds at most $15.00 and at least $0.50, and only
      overdue loans add anything. */
  lemma {:induction false} FeesDueBounds(loans: seq<BorrowRecord>, records: seq<BorrowRecord>, patron: string, now: int)
    ensures FirstTierRate * OverdueCount(loans, records, patron, now) <= FeesDue(loans, records, patron, now)
    ensures FeesDue(loans, records, patron, now) <= MaxFee * OverdueCount(loans, records, patron, now)
  {
    if |loans| > 0 {
      FeesDueBounds(loans[..|loans| - 1], records, patron, now);
    }
  }

  /** A consistent store lets a patron hold at most five open loans, so the
      report lists at most five and owes at most $75.00. */
  lemma ReportBoundedByLoanLimit(books: seq<Book>, records: seq<BorrowRecord>, patron: string, now: int)
    requires ConsistentStore(books, records)
    ensures |ActiveLoansOf(records, patron)| <= MaxActiveLoans
    ensures FeesDue(ActiveLoansOf(records, patron), records, patron, now) <= MaxFee * MaxActiveLoans
  {
    var loans := ActiveLoansOf(records, patron);
    FeesDueBounds(loans, records, patron, now);
  }

  /** `get_patron_status_report(patron)` at time `now`. */
  method PatronStatusReport(db: Library, patron: string, now: int) returns (report: StatusReport)
    ensures !ValidPatronId(patron) ==> report == StatusReport(true, [], 0, 0)
    ensures ValidPatronId(patron) ==>
              && !report.invalidPatronId
              && report.currentlyBorrowed == ActiveLoansOf(db.records, patron)
              && report.booksOverdue == OverdueCount(report.currentlyBorrowed, db.records, patron, now)
              && report.totalFeesDue == FeesDue(report.currentlyBorrowed, db.records, patron, now)
    ensures report.booksOverdue <= |report.currentlyBorrowed|
    ensures FirstTierRate * report.booksOverdue <= report.totalFeesDue <= MaxFee * report.booksOverdue
  {
    if !ValidPatronId(patron) {
      return StatusReport(true, [], 0, 0);
    }
    var currentBorrows := ActiveLoansOf(db.records, patron);
    var totalFees: nat := 0;
    var overdueCount: nat := 0;
    for i := 0 to |currentBorrows|
      invariant overdueCount == OverdueCount(currentBorrows[..i], db.records, patron, now)
      invariant totalFees == FeesDue(currentBorrows[..i], db.records, patron, now)
    {
      assert currentBorrows[..i + 1][..i] == currentBorrows[..i];
      var feeInfo := AssessLateFee(db.records, patron, currentBorrows[i].bookId, now);
      if feeInfo.daysOverdue > 0 {
        overdueCount := overdueCount + 1;
        totalFees := totalFees + feeInfo.feeCents;
      }
    }
    assert currentBorrows[..|currentBorrows|] == currentBorrows;
    FeesDueBounds(currentBorrows, db.records, patron, now);
    return StatusReport(false, currentBorrows, totalFees, overdueCount);
  }
}

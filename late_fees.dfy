/** The late-fee calculator: which loan is billed, how many whole days it is
    overdue, and the two-tier daily rate with its per-book cap. */
module LateFees {
  import opened Records

  /** 50 cents a day for the first 7 overdue days. */
  const FirstTierDays: nat := 7
  const FirstTierRate: nat := 50
  /** One dollar a day after that. */
  const SecondTierRate: nat := 100
  /** No single book is ever charged more than $15.00. */
  const MaxFee: nat := 1500

  datatype FeeStatus = NoActiveRecord | NotOverdue | Calculated

  /** What `calculate_late_fee_for_book` returns: fee in cents, whole days
      overdue, and which of its three branches produced them. */
  datatype FeeAssessment = FeeAssessment(feeCents: nat, daysOverdue: nat, status: FeeStatus)

  function Min(a: int, b: int): int { if a <= b then a else b }
  function Max(a: int, b: int): int { if a >= b then a else b }

  /** The fee for a loan `days` whole days overdue, computed tier by tier and
      then capped. Equal to min(15.00, 0.50 * min(d, 7) + 1.00 * max(0, d - 7)). */
  function FeeForDays(days: nat): (fee: nat)
    ensures fee == Min(MaxFee, FirstTierRate * Min(days, FirstTierDays)
                               + SecondTierRate * Max(0, days - FirstTierDays))
    ensures fee <= MaxFee
    ensures fee > 0 <==> days > 0
    ensures fee == MaxFee <==> days >= 19
  {
    var uncapped :=
      if days <= FirstTierDays then days * FirstTierRate
      else FirstTierDays * FirstTierRate + (days - FirstTierDays) * SecondTierRate;
    if uncapped > MaxFee then MaxFee else uncapped
  }

  /** A loan that is later overdue never owes less. */
  lemma FeeMonotone(d1: nat, d2: nat)
    requires d1 <= d2
    ensures FeeForDays(d1) <= FeeForDays(d2)
  {
  }

  /** The schedule at a few day counts: the cap, the end of the first tier,
      the first day of the second tier, and values the tests check. */
  lemma FeeScheduleExamples()
    ensures FeeForDays(0) == 0
    ensures FeeForDays(7) == 350
    ensures FeeForDays(8) == 450
    ensures FeeForDays(10) == 650
    ensures FeeForDays(15) == 1150
    ensures FeeForDays(25) == 1500
  {
  }

  /** Whole days elapsed from `due` to `now`, when `now` is past `due`:
      the `.days` of a positive timedelta, which rounds down. */
  function DaysOverdue(due: int, now: int): (days: nat)
    requires due < now
    ensures days * SecondsPerDay <= now - due < (days + 1) * SecondsPerDay
  {
    (now - due) / SecondsPerDay
  }

  /** `calculate_late_fee_for_book(patron, bookId)` at time `now`, over the
      store's borrow records. */
  function AssessLateFee(records: seq<BorrowRecord>, patron: string, bookId: int, now: int): (a: FeeAssessment)
    ensures a.feeCents == FeeForDays(a.daysOverdue) && a.feeCents <= MaxFee
    ensures a.status == NoActiveRecord <==> CurrentLoan(records, patron, bookId).None?
    ensures a.status != Calculated ==> a.daysOverdue == 0
    ensures CurrentLoan(records, patron, bookId).Some? ==>
              var due := records[CurrentLoan(records, patron, bookId).value].dueDate;
              (a.status == NotOverdue <==> now <= due)
              && (now > due ==> a.daysOverdue * SecondsPerDay <= now - due < (a.daysOverdue + 1) * SecondsPerDay)
  {
    match CurrentLoan(records, patron, bookId)
    case None => FeeAssessment(0, 0, NoActiveRecord)
    case Some(i) =>
      var due := records[i].dueDate;
      if now <= due then FeeAssessment(0, 0, NotOverdue)
      else
        var days := DaysOverdue(due, now);
        FeeAssessment(FeeForDays(days), days, Calculated)
  }

  /** A loan overdue by less than a whole day is reported as calculated,
      with no day counted and nothing owed. */
  lemma UnderADayOverdueOwesNothing(records: seq<BorrowRecord>, patron: string, bookId: int, now: int)
    requires CurrentLoan(records, patron, bookId).Some?
    requires var due := records[CurrentLoan(records, patron, bookId).value].dueDate;
             due < now < due + SecondsPerDay
    ensures AssessLateFee(records, patron, bookId, now) == FeeAssessment(0, 0, Calculated)
  {
  }

  /** With the records fixed, the fee owed never goes down as time passes. */
  lemma FeeGrowsWithTime(records: seq<BorrowRecord>, patron: string, bookId: int, t1: int, t2: int)
    requires t1 <= t2
    ensures AssessLateFee(records, patron, bookId, t1).feeCents <= AssessLateFee(records, patron, bookId, t2).feeCents
    ensures AssessLateFee(records, patron, bookId, t1).daysOverdue <= AssessLateFee(records, patron, bookId, t2).daysOverdue
  {
    var loan := CurrentLoan(records, patron, bookId);
    if loan.Some? {
      var due := records[loan.value].dueDate;
      if t1 > due {
        var d1 := AssessLateFee(records, patron, bookId, t1).daysOverdue;
        var d2 := AssessLateFee(records, patron, bookId, t2).daysOverdue;
        assert d1 * SecondsPerDay <= t2 - due < (d2 + 1) * SecondsPerDay;
        assert d1 <= d2;
        FeeMonotone(d1, d2);
      }
    }
  }
}

/**
 * The loan ("issued book") record of backend/models/IssuedBook.js: its fields and
 * defaults, the default due date set before saving, the fine calculation and the
 * status refresh. Instants are integer milliseconds; the clock is the parameter `now`.
 */
module LoanRecord {
  import opened Wrappers

  type BookId = nat
  type UserId = nat
  type LoanId = nat

  /** One day in milliseconds (1000 * 60 * 60 * 24). */
  const DayMs: int := 86_400_000
  /** Default loan period, in days. */
  const LoanPeriodDays: int := 14
  /** Fine per overdue day, in rupees. */
  const FinePerDay: int := 5

  datatype Status = Issued | Returned | Overdue

  /** A loan is open until it is returned. */
  predicate IsOpen(s: Status) {
    s == Issued || s == Overdue
  }

  datatype Loan = Loan(
    book: BookId,
    user: UserId,
    issueDate: int,
    dueDate: int,
    returnDate: Option<int>,
    status: Status,
    fine: int)

  /** The record shape every handler keeps: returned exactly when a return date is stamped. */
  predicate WellFormed(l: Loan) {
    (l.status == Returned <==> l.returnDate.Some?) && l.fine >= 0
  }

  /**
   * A freshly created loan: the schema defaults (status `issued`, fine 0, no return
   * date) and the pre-save hook that fills in a missing due date.
   */
  function NewLoan(book: BookId, user: UserId, issueDate: int, dueDate: Option<int>): (l: Loan)
    ensures l.book == book && l.user == user && l.issueDate == issueDate
    ensures l.status == Issued && l.fine == 0 && l.returnDate == None
    ensures dueDate.Some? ==> l.dueDate == dueDate.value
    ensures dueDate.None? ==> l.dueDate - issueDate == 14 * 24 * 60 * 60 * 1000
    ensures WellFormed(l)
  {
    Loan(book, user, issueDate, dueDate.GetOr(issueDate + LoanPeriodDays * DayMs), None, Issued, 0)
  }

  /**
   * The number of days a loan is late by `late` milliseconds, a partial day
   * counting as a whole one.
   */
  function OverdueDays(late: int): (days: int)
    requires late > 0
    ensures days >= 1
    ensures (days - 1) * DayMs < late <= days * DayMs
  {
    (late + DayMs - 1) / DayMs
  }

  /**
   * The fine owed at `now`: nothing for a returned loan or one without a due date,
   * nothing up to and including the due date, and FinePerDay for every started
   * day after it.
   */
  function CalculateFine(status: Status, dueDate: Option<int>, now: int): (fine: int)
    ensures fine >= 0
    ensures status == Returned || dueDate.None? ==> fine == 0
    ensures dueDate.Some? && now <= dueDate.value ==> fine == 0
    ensures status != Returned && dueDate.Some? && now > dueDate.value ==>
              && fine >= FinePerDay
              && fine % FinePerDay == 0
              && (fine / FinePerDay - 1) * DayMs < now - dueDate.value <= (fine / FinePerDay) * DayMs
  {
    if status == Returned || dueDate.None? then 0
    else if now > dueDate.value then OverdueDays(now - dueDate.value) * FinePerDay
    else 0
  }

  /** The fine of a loan record as the document method computes it. */
  function FineOf(l: Loan, now: int): (fine: int)
    ensures fine == 0 <==> l.status == Returned || now <= l.dueDate
  {
    CalculateFine(l.status, Some(l.dueDate), now)
  }

  /**
   * The status refresh: a loan with a return date becomes `returned` (its fine
   * untouched); an unreturned loan past its due date becomes `overdue` with the
   * fine recomputed; anything else is left as it is.
   */
  function UpdateStatus(l: Loan, now: int): (r: Loan)
    ensures r.(status := l.status, fine := l.fine) == l
    ensures l.returnDate.Some? ==> r.status == Returned && r.fine == l.fine
    ensures l.returnDate.None? && now > l.dueDate ==>
              r.status == Overdue && r.fine == FineOf(r, now) && r.fine >= FinePerDay
    ensures l.returnDate.None? && now <= l.dueDate ==> r == l
    ensures WellFormed(l) ==> WellFormed(r)
  {
    if l.returnDate.Some? then l.(status := Returned)
    else if now > l.dueDate then l.(status := Overdue, fine := CalculateFine(Overdue, Some(l.dueDate), now))
    else l
  }

  /** What the overdue listing does to each loan it finds: mark it overdue and recompute the fine. */
  function MarkOverdue(l: Loan, now: int): (r: Loan)
    ensures r.(status := l.status, fine := l.fine) == l
    ensures r.status == Overdue
    ensures r.fine == FineOf(r, now)
    ensures now > l.dueDate ==> r.fine >= FinePerDay
    ensures r.fine == 0 <==> now <= l.dueDate
    ensures WellFormed(l) && IsOpen(l.status) ==> WellFormed(r)
  {
    l.(status := Overdue, fine := CalculateFine(Overdue, Some(l.dueDate), now))
  }

  /** What the return handler does to the loan: freeze the fine, stamp the return date. */
  function CloseLoan(l: Loan, now: int): (r: Loan)
    ensures r.(status := l.status, fine := l.fine, returnDate := l.returnDate) == l
    ensures r.status == Returned && r.returnDate == Some(now)
    ensures IsOpen(l.status) ==> r.fine == CalculateFine(Issued, Some(l.dueDate), now)
    ensures WellFormed(r)
  {
    l.(returnDate := Some(now), status := Returned, fine := FineOf(l, now))
  }

  /** A later clock never lowers the fine. */
  lemma FineMonotone(status: Status, dueDate: Option<int>, now1: int, now2: int)
    requires now1 <= now2
    ensures CalculateFine(status, dueDate, now1) <= CalculateFine(status, dueDate, now2)
  {
    if status != Returned && dueDate.Some? && now1 > dueDate.value {
      var d1 := OverdueDays(now1 - dueDate.value);
      var d2 := OverdueDays(now2 - dueDate.value);
      // d1 - 1 < (now1 - due) / DayMs <= (now2 - due) / DayMs <= d2
      assert (d1 - 1) * DayMs < d2 * DayMs;
    }
  }

  /** Boundary cases of the daily rounding. */
  lemma FineExamples(due: int)
    ensures CalculateFine(Issued, Some(due), due) == 0
    ensures CalculateFine(Issued, Some(due), due + 1) == 5
    ensures CalculateFine(Issued, Some(due), due + DayMs) == 5
    ensures CalculateFine(Issued, Some(due), due + DayMs + 1000) == 10
    ensures CalculateFine(Issued, Some(due), due + 25 * 60 * 60 * 1000) == 10
    ensures CalculateFine(Overdue, Some(due), due + 3 * DayMs) == 15
    ensures CalculateFine(Returned, Some(due), due + 3 * DayMs) == 0
  {
  }

  /** Refreshing twice with the same clock is the same as refreshing once. */
  lemma UpdateStatusIdempotent(l: Loan, now: int)
    ensures UpdateStatus(UpdateStatus(l, now), now) == UpdateStatus(l, now)
  {
  }

  /** A returned loan is frozen: refreshing it changes nothing. */
  lemma ReturnedLoanFrozen(l: Loan, now: int)
    requires WellFormed(l) && l.status == Returned
    ensures UpdateStatus(l, now) == l
  {
  }

  /** A loan created with a due date three days in the past is immediately overdue with a fine of 15. */
  lemma PredatedLoanOverdue(book: BookId, user: UserId, now: int)
    ensures var l := UpdateStatus(NewLoan(book, user, now, Some(now - 3 * DayMs)), now);
            l.status == Overdue && l.fine == 3 * FinePerDay
  {
  }

  /** A loan with the default due date stays `issued`, with no fine, for the whole loan period. */
  lemma DefaultLoanNotOverdueWithinPeriod(book: BookId, user: UserId, issueDate: int, now: int)
    requires now <= issueDate + LoanPeriodDays * DayMs
    ensures var l := NewLoan(book, user, issueDate, None);
            UpdateStatus(l, now) == l && FineOf(l, now) == 0
  {
  }
}

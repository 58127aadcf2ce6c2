/**
 * The loan table (the IssuedBook collection) seen as a map from id to record:
 * the set of open loans on a book, the duplicate-loan guard, the queries the
 * listing handlers run and the loop that refreshes every loan they return
 * (backend/controllers/issuedBookController.js).
 */
module Ledger {
  import opened Wrappers
  import opened LoanRecord

  type Loans = map<LoanId, Loan>

  /** The open loans on `book`: the copies of it that are out. */
  ghost function OpenLoansOn(loans: Loans, book: BookId): set<LoanId> {
    set id | id in loans && loans[id].book == book && IsOpen(loans[id].status)
  }

  ghost function OpenCount(loans: Loans, book: BookId): nat {
    |OpenLoansOn(loans, book)|
  }

  /** Adding a loan under a fresh id adds one to its book's count if it is open, and nothing elsewhere. */
  lemma OpenCountAfterAdd(loans: Loans, id: LoanId, l: Loan, book: BookId)
    requires id !in loans
    ensures OpenCount(loans[id := l], book) ==
            OpenCount(loans, book) + (if l.book == book && IsOpen(l.status) then 1 else 0)
  {
    var before, after := OpenLoansOn(loans, book), OpenLoansOn(loans[id := l], book);
    var added := if l.book == book && IsOpen(l.status) then {id} else {};
    forall k ensures k in after <==> k in before + added {
      if k != id {
        assert k in after <==> k in before;
      }
    }
    assert after == before + added;
  }

  /** Closing an open loan takes one from its book's count and nothing elsewhere. */
  lemma OpenCountAfterClose(loans: Loans, id: LoanId, l: Loan, book: BookId)
    requires id in loans && IsOpen(loans[id].status)
    requires l.book == loans[id].book && !IsOpen(l.status)
    ensures OpenCount(loans[id := l], book) ==
            OpenCount(loans, book) - (if l.book == book then 1 else 0)
  {
    var before, after := OpenLoansOn(loans, book), OpenLoansOn(loans[id := l], book);
    var removed := if l.book == book then {id} else {};
    forall k ensures k in after <==> k in before - removed {
      if k != id {
        assert k in after <==> k in before;
      }
    }
    assert after == before - removed;
  }

  /** Two tables that agree on ids, books and openness have the same open loans on every book. */
  predicate SameOpenness(a: Loans, b: Loans) {
    && a.Keys == b.Keys
    && forall id :: id in a ==> a[id].book == b[id].book && IsOpen(a[id].status) == IsOpen(b[id].status)
  }

  lemma SameOpennessSameCount(a: Loans, b: Loans, book: BookId)
    requires SameOpenness(a, b)
    ensures OpenCount(a, book) == OpenCount(b, book)
  {
    assert OpenLoansOn(a, book) == OpenLoansOn(b, book);
  }

  /** The duplicate guard of the issue handler: a loan of this book to this user with status `issued`. */
  predicate IssuedLoanExists(loans: Loans, book: BookId, user: UserId) {
    exists id :: id in loans && loans[id].book == book && loans[id].user == user && loans[id].status == Issued
  }

  /** A table whose loans are all returned holds no `issued` loan of any pair. */
  lemma NoIssuedAmongReturned(loans: Loans, book: BookId, user: UserId)
    requires forall id :: id in loans ==> loans[id].status == Returned
    ensures !IssuedLoanExists(loans, book, user)
  {
  }

  /** At most one loan with status `issued` per (book, user) pair. */
  ghost predicate UniqueIssued(loans: Loans) {
    forall i, j {:trigger IssuedToSamePair(loans[i], loans[j])} ::
      i in loans && j in loans && i != j ==> !IssuedToSamePair(loans[i], loans[j])
  }

  /** Both loans are `issued`, of the same book to the same user. */
  predicate IssuedToSamePair(a: Loan, b: Loan) {
    a.status == Issued && b.status == Issued && a.book == b.book && a.user == b.user
  }

  /** Adding an `issued` loan that the guard let through keeps `issued` loans unique per pair. */
  lemma AddKeepsUniqueIssued(loans: Loans, id: LoanId, l: Loan)
    requires UniqueIssued(loans) && id !in loans
    requires l.status == Issued ==> !IssuedLoanExists(loans, l.book, l.user)
    ensures UniqueIssued(loans[id := l])
  {
    var after := loans[id := l];
    forall i, j | i in after && j in after && i != j
      ensures !IssuedToSamePair(after[i], after[j])
    {
      if i != id && j != id {
        assert !IssuedToSamePair(loans[i], loans[j]);
      }
    }
  }

  /**
   * Replacing a loan keeps `issued` loans unique per pair when the new record is
   * not `issued`, or was already `issued` to the same pair.
   */
  lemma ReplaceKeepsUniqueIssued(loans: Loans, id: LoanId, l: Loan)
    requires UniqueIssued(loans) && id in loans
    requires l.status == Issued ==> IssuedToSamePair(loans[id], l)
    ensures UniqueIssued(loans[id := l])
  {
    var after := loans[id := l];
    forall i, j | i in after && j in after && i != j
      ensures !IssuedToSamePair(after[i], after[j])
    {
      if i != id && j != id {
        assert !IssuedToSamePair(loans[i], loans[j]);
      } else if i == id && after[i].status == Issued {
        assert !IssuedToSamePair(loans[i], loans[j]);
      } else if j == id && after[j].status == Issued {
        assert !IssuedToSamePair(loans[i], loans[j]);
      }
    }
  }

  /** The open loans of one (book, user) pair. */
  ghost function OpenLoansOfPair(loans: Loans, book: BookId, user: UserId): set<LoanId> {
    set id | id in loans && loans[id].book == book && loans[id].user == user && IsOpen(loans[id].status)
  }

  /**
   * The guard looks only for status `issued`: with one overdue loan of the pair
   * on the table it lets a second loan of the same book to the same user through.
   */
  lemma GuardAdmitsSecondOpenLoan(book: BookId, user: UserId, now: int)
    ensures var loans := map[0 := Loan(book, user, now - 20 * DayMs, now - 6 * DayMs, None, Overdue, 30)];
            && UniqueIssued(loans)
            && !IssuedLoanExists(loans, book, user)
            && |OpenLoansOfPair(loans, book, user)| == 1
            && |OpenLoansOfPair(loans[1 := NewLoan(book, user, now, None)], book, user)| == 2
  {
    var loans := map[0 := Loan(book, user, now - 20 * DayMs, now - 6 * DayMs, None, Overdue, 30)];
    assert OpenLoansOfPair(loans, book, user) == {0};
    assert OpenLoansOfPair(loans[1 := NewLoan(book, user, now, None)], book, user) == {0, 1};
  }

  /** The filters of the listing queries. */
  datatype Query =
    | AllLoans                  // getAllIssuedBooks: every loan
    | OpenDueBefore(now: int)   // getOverdueBooks: open and due strictly before now
    | OpenOfUser(user: UserId)  // getMyBooks: the user's open loans
    | OfUser(user: UserId)      // getMyHistory: all the user's loans

  predicate Matches(q: Query, l: Loan) {
    match q
    case AllLoans => true
    case OpenDueBefore(now) => IsOpen(l.status) && l.dueDate < now
    case OpenOfUser(u) => l.user == u && IsOpen(l.status)
    case OfUser(u) => l.user == u
  }

  /** The sort orders of the listing queries: issue date descending, due date ascending. */
  datatype Order = NewestIssueFirst | EarliestDueFirst

  function SortKey(order: Order, loans: Loans, id: LoanId): int {
    if id !in loans then 0
    else match order
      case NewestIssueFirst => -loans[id].issueDate
      case EarliestDueFirst => loans[id].dueDate
  }

  predicate SortedBy(s: seq<LoanId>, loans: Loans, order: Order) {
    forall i, j :: 0 <= i < j < |s| ==> SortKey(order, loans, s[i]) <= SortKey(order, loans, s[j])
  }

  predicate Distinct(s: seq<LoanId>) {
    forall i, j :: 0 <= i < j < |s| ==> s[i] != s[j]
  }

  /** Splicing `x` between the entries whose keys do not exceed its own and those that do keeps the order. */
  lemma SortedSplice(s: seq<LoanId>, k: nat, x: LoanId, loans: Loans, order: Order)
    requires SortedBy(s, loans, order) && k <= |s|
    requires forall i :: 0 <= i < k ==> SortKey(order, loans, s[i]) <= SortKey(order, loans, x)
    requires forall i :: k <= i < |s| ==> SortKey(order, loans, x) < SortKey(order, loans, s[i])
    ensures SortedBy(s[..k] + [x] + s[k..], loans, order)
  {
    var r := s[..k] + [x] + s[k..];
    forall i, j | 0 <= i < j < |r|
      ensures SortKey(order, loans, r[i]) <= SortKey(order, loans, r[j])
    {
      var si := if i < k then i else i - 1;
      var sj := if j < k then j else j - 1;
      assert i != k ==> r[i] == s[si];
      assert j != k ==> r[j] == s[sj];
    }
  }

  /** Splicing an id that is not yet listed keeps the listing free of repeats. */
  lemma DistinctSplice(s: seq<LoanId>, k: nat, x: LoanId)
    requires Distinct(s) && x !in s && k <= |s|
    ensures Distinct(s[..k] + [x] + s[k..])
  {
    var r := s[..k] + [x] + s[k..];
    forall i, j | 0 <= i < j < |r|
      ensures r[i] != r[j]
    {
      var si := if i < k then i else i - 1;
      var sj := if j < k then j else j - 1;
      assert i != k ==> r[i] == s[si];
      assert j != k ==> r[j] == s[sj];
    }
  }

  /** Insert `x` into a sorted listing, after every entry whose key does not exceed its own. */
  method InsertSorted(s: seq<LoanId>, x: LoanId, loans: Loans, order: Order) returns (r: seq<LoanId>)
    requires SortedBy(s, loans, order)
    ensures SortedBy(r, loans, order)
    ensures multiset(r) == multiset(s) + multiset{x}
    ensures Distinct(s) && x !in s ==> Distinct(r)
  {
    var key := SortKey(order, loans, x);
    var k := 0;
    while k < |s| && SortKey(order, loans, s[k]) <= key
      invariant 0 <= k <= |s|
      invariant forall i :: 0 <= i < k ==> SortKey(order, loans, s[i]) <= key
    {
      k := k + 1;
    }
    SortedSplice(s, k, x, loans, order);
    if Distinct(s) && x !in s {
      DistinctSplice(s, k, x);
    }
    r := s[..k] + [x] + s[k..];
    assert s == s[..k] + s[k..];
  }

  /**
   * The query of a listing handler: every loan the filter matches, once each,
   * in the handler's sort order.
   */
  method FindSorted(loans: Loans, q: Query, order: Order) returns (ids: seq<LoanId>)
    ensures forall id :: id in ids <==> id in loans && Matches(q, loans[id])
    ensures Distinct(ids)
    ensures SortedBy(ids, loans, order)
  {
    var pending := set id | id in loans && Matches(q, loans[id]);
    ids := [];
    while pending != {}
      invariant forall id :: id in ids || id in pending <==> id in loans && Matches(q, loans[id])
      invariant forall id :: id in pending ==> id !in ids
      invariant Distinct(ids)
      invariant SortedBy(ids, loans, order)
      decreases |pending|
    {
      var id: LoanId :| id in pending;
      ids := InsertSorted(ids, id, loans, order);
      assert forall y :: y in ids <==> y in multiset(ids);
      pending := pending - {id};
    }
  }

  /** The refresh loop of a listing handler: apply `f` to each listed loan, in turn. */
  method RefreshEach(loans: Loans, ids: seq<LoanId>, f: Loan -> Loan) returns (m: Loans)
    requires forall id :: id in ids ==> id in loans
    requires Distinct(ids)
    ensures m.Keys == loans.Keys
    ensures forall id :: id in m ==> m[id] == if id in ids then f(loans[id]) else loans[id]
  {
    m := loans;
    for i := 0 to |ids|
      invariant m.Keys == loans.Keys
      invariant forall id :: id in m ==> m[id] == if id in ids[..i] then f(loans[id]) else loans[id]
    {
      var id := ids[i];
      assert id !in ids[..i];
      m := m[id := f(m[id])];
      assert ids[..i + 1] == ids[..i] + [id];
    }
    assert ids[..|ids|] == ids;
  }
}

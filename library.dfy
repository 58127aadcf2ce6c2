/**
 * The library database and the request handlers that change it: the issue/return
 * coordinator and the listing and statistics handlers of
 * backend/controllers/issuedBookController.js, and the book and category handlers of
 * backend/controllers/bookController.js and backend/controllers/categoryController.js.
 * Each handler is one sequential method; its HTTP answer is a `Response`.
 */
module Library {
  import opened Wrappers
  import opened LoanRecord
  import opened BookRecord
  import opened Ledger

  /** Roles of the user directory; only students are counted in the statistics. */
  datatype Role = Student | Admin

  datatype Category = Category(name: string, description: Option<string>)
  datatype CategoryPatch = CategoryPatch(name: Option<string>, description: Option<string>)

  /** Why a request failed (the handler's message). */
  datatype Reason =
    | BookNotFound | NoCopiesAvailable | UserNotFound | AlreadyIssued
    | LoanNotFound | AlreadyReturned
    | CategoryNotFound | DuplicateIsbn | CategoryExists | CategoryInUse(books: nat)
    | ValidationFailed | DuplicateKey

  /** 2xx, 404, 400 and 500 answers. */
  datatype Response<T> =
    | Ok(value: T)
    | NotFound(reason: Reason)
    | BadRequest(reason: Reason)
    | ServerError(reason: Reason)

  datatype Stats = Stats(totalBooks: nat, totalUsers: nat, totalIssued: nat, totalOverdue: nat, totalCategories: nat)

  predicate IsbnInUse(books: map<BookId, Book>, isbn: string) {
    exists id :: id in books && books[id].isbn == isbn
  }

  predicate NameInUse(categories: map<CategoryId, Category>, name: string) {
    exists id :: id in categories && categories[id].name == name
  }

  /** The books that reference category `c`: none exactly when no stored book names it. */
  function BooksInCategory(books: map<BookId, Book>, c: CategoryId): (r: set<BookId>)
    ensures r <= books.Keys
    ensures r == {} <==> forall id :: id in books ==> books[id].category != c
  {
    var r := set id | id in books && books[id].category == c;
    assert forall id :: id in books && books[id].category == c ==> id in r;
    r
  }

  /** The loans with status `s`. */
  function LoansWithStatus(loans: Loans, s: Status): (r: set<LoanId>)
    ensures r <= loans.Keys
    ensures forall id :: id in r ==> loans[id].status == s
  {
    set id | id in loans && loans[id].status == s
  }

  /** The users with the student role. */
  function Students(users: map<UserId, Role>): (r: set<UserId>)
    ensures r <= users.Keys
  {
    set u | u in users && users[u] == Student
  }

  ghost function OpenLoans(loans: Loans): set<LoanId> {
    set id | id in loans && IsOpen(loans[id].status)
  }

  predicate SameIsbn(a: Book, b: Book) {
    a.isbn == b.isbn
  }

  predicate SameName(a: Category, b: Category) {
    a.name == b.name
  }

  /** The three statuses split the loan table; the first two make up the open loans. */
  lemma StatusPartition(loans: Loans)
    ensures |LoansWithStatus(loans, Issued)| + |LoansWithStatus(loans, Overdue)| == |OpenLoans(loans)|
    ensures |OpenLoans(loans)| + |LoansWithStatus(loans, Returned)| == |loans|
  {
    var issued, overdue, returned := LoansWithStatus(loans, Issued), LoansWithStatus(loans, Overdue), LoansWithStatus(loans, Returned);
    var open := OpenLoans(loans);
    forall id ensures id in open <==> id in issued + overdue {
    }
    assert open == issued + overdue;
    assert issued !! overdue;
    forall id ensures id in loans.Keys <==> id in open + returned {
    }
    assert loans.Keys == open + returned;
    assert open !! returned;
  }

  /** The unique index on ISBN. */
  ghost predicate UniqueIsbns(books: map<BookId, Book>) {
    forall i, j {:trigger SameIsbn(books[i], books[j])} ::
      i in books && j in books && i != j ==> !SameIsbn(books[i], books[j])
  }

  /** The unique index on category names. */
  ghost predicate UniqueNames(categories: map<CategoryId, Category>) {
    forall i, j {:trigger SameName(categories[i], categories[j])} ::
      i in categories && j in categories && i != j ==> !SameName(categories[i], categories[j])
  }

  /** Under the unique index, no other book carries a stored book's ISBN. */
  lemma IsbnOwnedOnce(books: map<BookId, Book>, id: BookId)
    requires UniqueIsbns(books) && id in books
    ensures !IsbnInUse(books - {id}, books[id].isbn)
  {
    if IsbnInUse(books - {id}, books[id].isbn) {
      var j :| j in books - {id} && books[j].isbn == books[id].isbn;
      assert SameIsbn(books[j], books[id]);
    }
  }

  /** Storing a book under `id` keeps the index unique when no other book has its ISBN. */
  lemma StoreKeepsUniqueIsbns(books: map<BookId, Book>, id: BookId, b: Book)
    requires UniqueIsbns(books) && !IsbnInUse(books - {id}, b.isbn)
    ensures UniqueIsbns(books[id := b])
  {
    var after := books[id := b];
    forall i, j | i in after && j in after && i != j
      ensures !SameIsbn(after[i], after[j])
    {
      if i == id {
        assert j in books - {id};
      } else if j == id {
        assert i in books - {id};
      } else {
        assert !SameIsbn(books[i], books[j]);
      }
    }
  }

  lemma RemoveKeepsUniqueIsbns(books: map<BookId, Book>, id: BookId)
    requires UniqueIsbns(books)
    ensures UniqueIsbns(books - {id})
  {
    var after := books - {id};
    forall i, j | i in after && j in after && i != j
      ensures !SameIsbn(after[i], after[j])
    {
      assert !SameIsbn(books[i], books[j]);
    }
  }

  /** Under the unique index, no other category carries a stored category's name. */
  lemma NameOwnedOnce(categories: map<CategoryId, Category>, id: CategoryId)
    requires UniqueNames(categories) && id in categories
    ensures !NameInUse(categories - {id}, categories[id].name)
  {
    if NameInUse(categories - {id}, categories[id].name) {
      var j :| j in categories - {id} && categories[j].name == categories[id].name;
      assert SameName(categories[j], categories[id]);
    }
  }

  /** Storing a category under `id` keeps the index unique when no other category has its name. */
  lemma StoreKeepsUniqueNames(categories: map<CategoryId, Category>, id: CategoryId, c: Category)
    requires UniqueNames(categories) && !NameInUse(categories - {id}, c.name)
    ensures UniqueNames(categories[id := c])
  {
    var after := categories[id := c];
    forall i, j | i in after && j in after && i != j
      ensures !SameName(after[i], after[j])
    {
      if i == id {
        assert j in categories - {id};
      } else if j == id {
        assert i in categories - {id};
      } else {
        assert !SameName(categories[i], categories[j]);
      }
    }
  }

  lemma RemoveKeepsUniqueNames(categories: map<CategoryId, Category>, id: CategoryId)
    requires UniqueNames(categories)
    ensures UniqueNames(categories - {id})
  {
    var after := categories - {id};
    forall i, j | i in after && j in after && i != j
      ensures !SameName(after[i], after[j])
    {
      assert !SameName(categories[i], categories[j]);
    }
  }

  /** Every stored book passes the schema validators and belongs to an existing category. */
  ghost predicate BooksSound(books: map<BookId, Book>, categories: map<CategoryId, Category>, maxYear: int) {
    forall id :: id in books ==> ValidBook(books[id], maxYear) && books[id].category in categories
  }

  /** Changing only a book's available count, to a non-negative value, keeps the book table sound. */
  lemma SetAvailableKeepsBooks(books: map<BookId, Book>, categories: map<CategoryId, Category>, maxYear: int,
                               bookId: BookId, n: int)
    requires BooksSound(books, categories, maxYear) && UniqueIsbns(books)
    requires bookId in books && n >= 0
    ensures var after := books[bookId := books[bookId].(available := n)];
            BooksSound(after, categories, maxYear) && UniqueIsbns(after)
  {
    IsbnOwnedOnce(books, bookId);
    StoreKeepsUniqueIsbns(books, bookId, books[bookId].(available := n));
  }

  /** The inventory invariant on a book table and a loan table. */
  ghost predicate BalancedTables(books: map<BookId, Book>, loans: Loans) {
    forall id :: id in books ==> books[id].available + OpenCount(loans, id) == books[id].quantity
  }

  /**
   * Issuing keeps the inventory balanced: the new open loan takes the copy that the
   * decrement removes, and the pre-save clamp has nothing to do.
   */
  lemma BalanceAfterIssue(books: map<BookId, Book>, loans: Loans, bookId: BookId, id: LoanId, loan: Loan,
                          books': map<BookId, Book>, loans': Loans)
    requires BalancedTables(books, loans)
    requires bookId in books && id !in loans
    requires loan.book == bookId && IsOpen(loan.status)
    requires loans' == loans[id := loan]
    requires books' == books[bookId := ClampAvailable(books[bookId].(available := books[bookId].available - 1))]
    ensures BalancedTables(books', loans')
    ensures books'[bookId].available == books[bookId].available - 1
  {
    OpenCountAfterAdd(loans, id, loan, bookId);
    forall k | k in books'
      ensures books'[k].available + OpenCount(loans', k) == books'[k].quantity
    {
      OpenCountAfterAdd(loans, id, loan, k);
    }
  }

  /**
   * Returning keeps the inventory balanced: the closed loan gives its copy back,
   * and the clamp has nothing to do because that copy was counted in the quantity.
   */
  lemma BalanceAfterReturn(books: map<BookId, Book>, loans: Loans, loanId: LoanId, closed: Loan,
                           books': map<BookId, Book>, loans': Loans)
    requires BalancedTables(books, loans)
    requires loanId in loans && IsOpen(loans[loanId].status)
    requires closed.book == loans[loanId].book && !IsOpen(closed.status)
    requires loans' == loans[loanId := closed]
    requires closed.book in books ==>
               books' == books[closed.book := ClampAvailable(books[closed.book].(available := books[closed.book].available + 1))]
    requires closed.book !in books ==> books' == books
    ensures BalancedTables(books', loans')
    ensures closed.book in books ==> books'[closed.book].available == books[closed.book].available + 1
  {
    var book := closed.book;
    assert loanId in OpenLoansOn(loans, book);
    OpenCountAfterClose(loans, loanId, closed, book);
    forall k | k in books'
      ensures books'[k].available + OpenCount(loans', k) == books'[k].quantity
    {
      OpenCountAfterClose(loans, loanId, closed, k);
    }
  }

  /**
   * An update that raises the quantity of a book with a copy out leaves the balance
   * broken: the overwrite touches `quantity` but not `available`.
   */
  lemma QuantityUpdateUnbalances()
    ensures var b := Book("Dune", "Frank Herbert", "9780441013593", 0, None, None, 1, 0);
            var loans := map[0 := NewLoan(0, 7, 0, None)];
            var patch := BookPatch(None, None, None, None, None, None, Some(2), None);
            && BalancedTables(map[0 := b], loans)
            && !BalancedTables(map[0 := ApplyPatch(b, patch)], loans)
  {
    var b := Book("Dune", "Frank Herbert", "9780441013593", 0, None, None, 1, 0);
    var loans := map[0 := NewLoan(0, 7, 0, None)];
    var patched := ApplyPatch(b, BookPatch(None, None, None, None, None, None, Some(2), None));
    assert OpenLoansOn(loans, 0) == {0};
    assert OpenCount(loans, 0) == 1;
    assert map[0 := b][0].available + OpenCount(loans, 0) == map[0 := b][0].quantity;
    assert map[0 := patched][0].available + OpenCount(loans, 0) != map[0 := patched][0].quantity;
  }

  function ApplyCategoryPatch(c: Category, p: CategoryPatch): (r: Category)
    ensures p.name.Some? ==> r.name == p.name.value
    ensures p.name.None? ==> r.name == c.name
    ensures p.description.Some? ==> r.description == p.description
    ensures p.description.None? ==> r.description == c.description
  {
    Category(p.name.GetOr(c.name), if p.description.Some? then p.description else c.description)
  }

  class Library {
    var books: map<BookId, Book>
    var categories: map<CategoryId, Category>
    var loans: Loans
    /** Id generators standing in for the database's object ids. */
    var nextBookId: nat
    var nextCategoryId: nat
    var nextLoanId: nat
    /** The user directory, which these handlers only read. */
    const users: map<UserId, Role>
    /** The calendar year when the book schema was loaded: the latest valid publication year. */
    const maxYear: int

    /** Ids are fresh, and every loan names a book id that has been handed out. */
    ghost predicate IdsFresh()
      reads this
    {
      && (forall id :: id in books ==> id < nextBookId)
      && (forall id :: id in categories ==> id < nextCategoryId)
      && (forall id :: id in loans ==> id < nextLoanId && loans[id].book < nextBookId)
    }

    /**
     * The database invariant: fresh ids, valid books whose categories exist (the
     * catalog's referential integrity), the unique indexes, well-formed loans, and at
     * most one `issued` loan per (book, user) pair.
     */
    ghost predicate Valid()
      reads this
    {
      && IdsFresh()
      && BooksSound(books, categories, maxYear)
      && UniqueIsbns(books)
      && UniqueNames(categories)
      && (forall id :: id in loans ==> WellFormed(loans[id]))
      && UniqueIssued(loans)
    }

    /** The inventory invariant: the available copies plus the copies out on open loans make up the quantity. */
    ghost predicate Balanced()
      reads this
    {
      BalancedTables(books, loans)
    }

    /** In a valid, balanced library every counter lies between 0 and the quantity. */
    lemma CountersInRange()
      requires Valid() && Balanced()
      ensures forall id :: id in books ==> 0 <= books[id].available <= books[id].quantity
    {
    }

    constructor (users: map<UserId, Role>, currentYear: int)
      ensures Valid() && Balanced()
      ensures this.users == users && maxYear == currentYear
      ensures books == map[] && categories == map[] && loans == map[]
    {
      this.users := users;
      maxYear := currentYear;
      books, categories, loans := map[], map[], map[];
      nextBookId, nextCategoryId, nextLoanId := 0, 0, 0;
    }

    // ---------------------------------------------------------------- issue and return

    /**
     * Issue a copy of `bookId` to `userId`. The guards run in order: the book exists,
     * a copy is available, the user exists, the user holds no `issued` loan of the book.
     * Then the loan is created and the book's available count lowered and saved.
     */
    method IssueBook(bookId: BookId, userId: UserId, dueDate: Option<int>, now: int) returns (r: Response<LoanId>)
      requires Valid()
      modifies this
      ensures Valid()
      ensures old(Balanced()) ==> Balanced()
      ensures bookId !in old(books) ==> r == NotFound(BookNotFound)
      ensures bookId in old(books) && old(books)[bookId].available <= 0 ==> r == BadRequest(NoCopiesAvailable)
      ensures bookId in old(books) && old(books)[bookId].available > 0 && userId !in users ==>
                r == NotFound(UserNotFound)
      ensures (bookId in old(books) && old(books)[bookId].available > 0 && userId in users &&
               IssuedLoanExists(old(loans), bookId, userId)) ==> r == BadRequest(AlreadyIssued)
      ensures r.Ok? <==> bookId in old(books) && old(books)[bookId].available > 0 && userId in users &&
                         !IssuedLoanExists(old(loans), bookId, userId)
      ensures !r.Ok? ==> unchanged(this)
      ensures r.Ok? ==>
                && r.value !in old(loans)
                && loans == old(loans)[r.value := NewLoan(bookId, userId, now, Some(dueDate.GetOr(now + 14 * DayMs)))]
                && books == old(books)[bookId := ClampAvailable(old(books)[bookId].(available := old(books)[bookId].available - 1))]
                && nextLoanId == old(nextLoanId) + 1
      ensures r.Ok? && old(Balanced()) ==> books[bookId].available == old(books)[bookId].available - 1
      ensures categories == old(categories) && nextBookId == old(nextBookId) && nextCategoryId == old(nextCategoryId)
    {
      if bookId !in books {
        return NotFound(BookNotFound);
      }
      var book := books[bookId];
      if book.available <= 0 {
        return BadRequest(NoCopiesAvailable);
      }
      if userId !in users {
        return NotFound(UserNotFound);
      }
      if IssuedLoanExists(loans, bookId, userId) {
        return BadRequest(AlreadyIssued);
      }
      var due := dueDate.GetOr(now + 14 * DayMs);
      var loan := NewLoan(bookId, userId, now, Some(due));
      ghost var books0, loans0, balanced0 := books, loans, Balanced();
      var id := InsertLoan(loan);
      SaveBook(bookId, book.(available := book.available - 1));
      if balanced0 {
        BalanceAfterIssue(books0, loans0, bookId, id, loan, books, loans);
      }
      r := Ok(id);
    }

    /**
     * Return the loan `loanId`: it must exist and not be returned already. The fine is
     * computed while the loan is still open, then the return date and status are set,
     * and the book, if it still exists, gets its copy back.
     */
    method ReturnBook(loanId: LoanId, now: int) returns (r: Response<Loan>)
      requires Valid()
      modifies this
      ensures Valid()
      ensures old(Balanced()) ==> Balanced()
      ensures loanId !in old(loans) ==> r == NotFound(LoanNotFound) && unchanged(this)
      ensures loanId in old(loans) && old(loans)[loanId].status == Returned ==>
                r == BadRequest(AlreadyReturned) && unchanged(this)
      ensures loanId in old(loans) && old(loans)[loanId].status != Returned ==>
                var l := old(loans)[loanId];
                && r == Ok(CloseLoan(l, now))
                && r.value.fine == CalculateFine(l.status, Some(l.dueDate), now)
                && loans == old(loans)[loanId := r.value]
                && books == if l.book in old(books)
                            then old(books)[l.book := ClampAvailable(old(books)[l.book].(available := old(books)[l.book].available + 1))]
                            else old(books)
      ensures r.Ok? && old(Balanced()) && r.value.book in books ==>
                books[r.value.book].available == old(books)[r.value.book].available + 1
      ensures categories == old(categories)
      ensures nextBookId == old(nextBookId) && nextCategoryId == old(nextCategoryId) && nextLoanId == old(nextLoanId)
    {
      if loanId !in loans {
        return NotFound(LoanNotFound);
      }
      var loan := loans[loanId];
      if loan.status == Returned {
        return BadRequest(AlreadyReturned);
      }
      var closed := CloseLoan(loan, now);
      ghost var books0, loans0, balanced0 := books, loans, Balanced();
      SaveLoan(loanId, closed);
      if loan.book in books {
        var book := books[loan.book];
        SaveBook(loan.book, book.(available := book.available + 1));
      }
      if balanced0 {
        BalanceAfterReturn(books0, loans0, loanId, closed, books, loans);
      }
      r := Ok(closed);
    }

    // ---------------------------------------------------------------- saving documents

    /** Insert a new loan document under a fresh id. */
    method InsertLoan(loan: Loan) returns (id: LoanId)
      requires Valid()
      requires loan.book < nextBookId && WellFormed(loan)
      requires loan.status == Issued ==> !IssuedLoanExists(loans, loan.book, loan.user)
      modifies this
      ensures Valid()
      ensures id == old(nextLoanId) && id !in old(loans) && nextLoanId == id + 1
      ensures loans == old(loans)[id := loan]
      ensures books == old(books) && categories == old(categories)
      ensures nextBookId == old(nextBookId) && nextCategoryId == old(nextCategoryId)
    {
      id := nextLoanId;
      AddKeepsUniqueIssued(loans, id, loan);
      loans := loans[id := loan];
      nextLoanId := nextLoanId + 1;
    }

    /** Save a changed loan document over the stored one. */
    method SaveLoan(id: LoanId, loan: Loan)
      requires Valid()
      requires id in loans && loan.book == loans[id].book && WellFormed(loan)
      requires loan.status == Issued ==> IssuedToSamePair(loans[id], loan)
      modifies this
      ensures Valid()
      ensures loans == old(loans)[id := loan]
      ensures books == old(books) && categories == old(categories)
      ensures nextBookId == old(nextBookId) && nextCategoryId == old(nextCategoryId) && nextLoanId == old(nextLoanId)
    {
      ReplaceKeepsUniqueIssued(loans, id, loan);
      loans := loans[id := loan];
    }

    /**
     * Save a book whose available count changed: the validators pass (the count is
     * not negative), then the pre-save hook clamps the count to the quantity.
     */
    method SaveBook(id: BookId, book: Book)
      requires Valid()
      requires id in books && book == books[id].(available := book.available) && book.available >= 0
      modifies this
      ensures Valid()
      ensures books == old(books)[id := ClampAvailable(book)]
      ensures loans == old(loans) && categories == old(categories)
      ensures nextBookId == old(nextBookId) && nextCategoryId == old(nextCategoryId) && nextLoanId == old(nextLoanId)
    {
      var saved := ClampAvailable(book);
      ClampKeepsValid(book, maxYear);
      SetAvailableKeepsBooks(books, categories, maxYear, id, saved.available);
      books := books[id := saved];
    }

    // ---------------------------------------------------------------- listings

    /** All loans, newest issue first; each loan still marked `issued` gets its status refreshed. */
    method GetAllIssuedBooks(now: int) returns (ids: seq<LoanId>)
      requires Valid()
      modifies this
      ensures Valid()
      ensures old(Balanced()) ==> Balanced()
      ensures forall id :: id in ids <==> id in old(loans)
      ensures Distinct(ids) && SortedBy(ids, old(loans), NewestIssueFirst)
      ensures loans.Keys == old(loans).Keys
      ensures forall id :: id in loans ==>
                loans[id] == if old(loans)[id].status == Issued then UpdateStatus(old(loans)[id], now) else old(loans)[id]
      ensures books == old(books) && categories == old(categories)
      ensures nextBookId == old(nextBookId) && nextCategoryId == old(nextCategoryId) && nextLoanId == old(nextLoanId)
    {
      ids := FindSorted(loans, AllLoans, NewestIssueFirst);
      var refreshed := RefreshEach(loans, ids, (l: Loan) => if l.status == Issued then UpdateStatus(l, now) else l);
      assert SameOpenness(loans, refreshed);
      forall b ensures OpenCount(refreshed, b) == OpenCount(loans, b) {
        SameOpennessSameCount(refreshed, loans, b);
      }
      loans := refreshed;
    }

    /**
     * The overdue listing: the open loans due strictly before `now`, earliest due
     * first; each is marked `overdue` with its fine recomputed.
     */
    method GetOverdueBooks(now: int) returns (ids: seq<LoanId>)
      requires Valid()
      modifies this
      ensures Valid()
      ensures old(Balanced()) ==> Balanced()
      ensures forall id :: id in ids <==>
                id in old(loans) && IsOpen(old(loans)[id].status) && old(loans)[id].dueDate < now
      ensures Distinct(ids) && SortedBy(ids, old(loans), EarliestDueFirst)
      ensures loans.Keys == old(loans).Keys
      ensures forall id :: id in loans ==>
                loans[id] == if id in ids then MarkOverdue(old(loans)[id], now) else old(loans)[id]
      ensures forall id :: id in ids ==>
                loans[id].status == Overdue && loans[id].fine == FineOf(loans[id], now) && loans[id].fine >= FinePerDay
      ensures books == old(books) && categories == old(categories)
      ensures nextBookId == old(nextBookId) && nextCategoryId == old(nextCategoryId) && nextLoanId == old(nextLoanId)
    {
      ids := FindSorted(loans, OpenDueBefore(now), EarliestDueFirst);
      var refreshed := RefreshEach(loans, ids, (l: Loan) => MarkOverdue(l, now));
      assert SameOpenness(loans, refreshed);
      forall b ensures OpenCount(refreshed, b) == OpenCount(loans, b) {
        SameOpennessSameCount(refreshed, loans, b);
      }
      loans := refreshed;
    }

    /** The open loans of `userId`, newest issue first, each with its status refreshed. */
    method GetMyBooks(userId: UserId, now: int) returns (ids: seq<LoanId>)
      requires Valid()
      modifies this
      ensures Valid()
      ensures old(Balanced()) ==> Balanced()
      ensures forall id :: id in ids <==>
                id in old(loans) && old(loans)[id].user == userId && IsOpen(old(loans)[id].status)
      ensures Distinct(ids) && SortedBy(ids, old(loans), NewestIssueFirst)
      ensures loans.Keys == old(loans).Keys
      ensures forall id :: id in loans ==>
                loans[id] == if id in ids then UpdateStatus(old(loans)[id], now) else old(loans)[id]
      ensures books == old(books) && categories == old(categories)
      ensures nextBookId == old(nextBookId) && nextCategoryId == old(nextCategoryId) && nextLoanId == old(nextLoanId)
    {
      ids := FindSorted(loans, OpenOfUser(userId), NewestIssueFirst);
      var refreshed := RefreshEach(loans, ids, (l: Loan) => UpdateStatus(l, now));
      assert SameOpenness(loans, refreshed);
      forall b ensures OpenCount(refreshed, b) == OpenCount(loans, b) {
        SameOpennessSameCount(refreshed, loans, b);
      }
      loans := refreshed;
    }

    /** Every loan of `userId`, newest issue first; nothing is refreshed. */
    method GetMyHistory(userId: UserId) returns (ids: seq<LoanId>)
      ensures forall id :: id in ids <==> id in loans && loans[id].user == userId
      ensures Distinct(ids) && SortedBy(ids, loans, NewestIssueFirst)
    {
      ids := FindSorted(loans, OfUser(userId), NewestIssueFirst);
    }

    /** The dashboard counters; `issued` and `overdue` loans are counted apart. */
    function GetStats(): (s: Stats)
      reads this
      ensures s.totalIssued == |LoansWithStatus(loans, Issued)| && s.totalOverdue == |LoansWithStatus(loans, Overdue)|
      ensures s.totalUsers == |Students(users)|
      ensures s.totalIssued + s.totalOverdue == |OpenLoans(loans)|
      ensures s.totalIssued + s.totalOverdue + |LoansWithStatus(loans, Returned)| == |loans|
      ensures s.totalBooks == |books| && s.totalCategories == |categories|
    {
      StatusPartition(loans);
      Stats(|books|, |Students(users)|,
            |LoansWithStatus(loans, Issued)|, |LoansWithStatus(loans, Overdue)|, |categories|)
    }

    // ---------------------------------------------------------------- books

    /**
     * Create a book: its category must exist; the record, with every copy available,
     * must pass the validators; its ISBN must be new.
     */
    method CreateBook(input: BookInput) returns (r: Response<BookId>)
      requires Valid()
      modifies this
      ensures Valid()
      ensures old(Balanced()) ==> Balanced()
      ensures input.category !in categories ==> r == BadRequest(CategoryNotFound)
      ensures input.category in categories && !ValidBook(NewBook(input), maxYear) ==>
                r == ServerError(ValidationFailed)
      ensures input.category in categories && ValidBook(NewBook(input), maxYear) && IsbnInUse(old(books), input.isbn) ==>
                r == BadRequest(DuplicateIsbn)
      ensures r.Ok? <==> input.category in categories && ValidBook(NewBook(input), maxYear) && !IsbnInUse(old(books), input.isbn)
      ensures !r.Ok? ==> unchanged(this)
      ensures r.Ok? ==>
                && r.value !in old(books)
                && books == old(books)[r.value := NewBook(input)]
                && books[r.value].available == books[r.value].quantity
                && nextBookId == old(nextBookId) + 1
      ensures categories == old(categories) && loans == old(loans)
      ensures nextCategoryId == old(nextCategoryId) && nextLoanId == old(nextLoanId)
    {
      if input.category !in categories {
        return BadRequest(CategoryNotFound);
      }
      var book := NewBook(input);
      if !ValidBook(book, maxYear) {
        return ServerError(ValidationFailed);
      }
      if IsbnInUse(books, book.isbn) {
        return BadRequest(DuplicateIsbn);
      }
      var id := nextBookId;
      assert OpenLoansOn(loans, id) == {};
      books := books[id := ClampAvailable(book)];
      nextBookId := nextBookId + 1;
      r := Ok(id);
    }

    method GetBook(id: BookId) returns (r: Response<Book>)
      ensures r.Ok? <==> id in books
      ensures r.Ok? ==> r.value == books[id]
      ensures !r.Ok? ==> r == NotFound(BookNotFound)
    {
      if id !in books {
        return NotFound(BookNotFound);
      }
      r := Ok(books[id]);
    }

    /**
     * Update a book: it must exist, a category it names must exist, the fields it sets
     * must pass their validators, an ISBN it sets must not belong to another book.
     * The fields are overwritten as given; the pre-save clamp does not run.
     */
    method UpdateBook(id: BookId, patch: BookPatch) returns (r: Response<Book>)
      requires Valid()
      modifies this
      ensures Valid()
      ensures id !in old(books) ==> r == NotFound(BookNotFound)
      ensures id in old(books) && patch.category.Some? && patch.category.value !in categories ==>
                r == BadRequest(CategoryNotFound)
      ensures (id in old(books) && (patch.category.Some? ==> patch.category.value in categories) &&
               !ValidPatch(patch, maxYear)) ==> r == ServerError(ValidationFailed)
      ensures (id in old(books) && (patch.category.Some? ==> patch.category.value in categories) &&
               ValidPatch(patch, maxYear) && patch.isbn.Some? && IsbnInUse(old(books) - {id}, patch.isbn.value)) ==>
                r == ServerError(DuplicateKey)
      ensures r.Ok? <==>
                && id in old(books)
                && (patch.category.Some? ==> patch.category.value in categories)
                && ValidPatch(patch, maxYear)
                && !(patch.isbn.Some? && IsbnInUse(old(books) - {id}, patch.isbn.value))
      ensures !r.Ok? ==> unchanged(this)
      ensures r.Ok? ==> r.value == ApplyPatch(old(books)[id], patch) && books == old(books)[id := r.value]
      ensures old(Balanced()) && patch.quantity.None? && patch.available.None? ==> Balanced()
      ensures categories == old(categories) && loans == old(loans)
      ensures nextBookId == old(nextBookId) && nextCategoryId == old(nextCategoryId) && nextLoanId == old(nextLoanId)
    {
      if id !in books {
        return NotFound(BookNotFound);
      }
      if patch.category.Some? && patch.category.value !in categories {
        return BadRequest(CategoryNotFound);
      }
      if !ValidPatch(patch, maxYear) {
        return ServerError(ValidationFailed);
      }
      if patch.isbn.Some? && IsbnInUse(books - {id}, patch.isbn.value) {
        return ServerError(DuplicateKey);
      }
      var updated := ApplyPatch(books[id], patch);
      PatchKeepsValid(books[id], patch, maxYear);
      if patch.isbn.None? {
        IsbnOwnedOnce(books, id);
      }
      StoreKeepsUniqueIsbns(books, id, updated);
      books := books[id := updated];
      r := Ok(updated);
    }

    /** Delete a book; loans that name it stay on the table. */
    method DeleteBook(id: BookId) returns (r: Response<()>)
      requires Valid()
      modifies this
      ensures Valid()
      ensures old(Balanced()) ==> Balanced()
      ensures r.Ok? <==> id in old(books)
      ensures !r.Ok? ==> r == NotFound(BookNotFound) && unchanged(this)
      ensures books == old(books) - {id}
      ensures forall b :: b in books ==> b in old(books) && books[b] == old(books)[b]
      ensures categories == old(categories) && loans == old(loans)
      ensures nextBookId == old(nextBookId) && nextCategoryId == old(nextCategoryId) && nextLoanId == old(nextLoanId)
    {
      if id !in books {
        return NotFound(BookNotFound);
      }
      books := books - {id};
      r := Ok(());
    }

    // ---------------------------------------------------------------- categories

    /** Create a category; its name must not be taken. */
    method CreateCategory(name: string, description: Option<string>) returns (r: Response<CategoryId>)
      requires Valid()
      modifies this
      ensures Valid()
      ensures old(Balanced()) ==> Balanced()
      ensures r.Ok? <==> !NameInUse(old(categories), name)
      ensures !r.Ok? ==> r == BadRequest(CategoryExists) && unchanged(this)
      ensures r.Ok? ==>
                && r.value !in old(categories)
                && categories == old(categories)[r.value := Category(name, description)]
                && nextCategoryId == old(nextCategoryId) + 1
      ensures books == old(books) && loans == old(loans)
      ensures nextBookId == old(nextBookId) && nextLoanId == old(nextLoanId)
    {
      if NameInUse(categories, name) {
        return BadRequest(CategoryExists);
      }
      var id := nextCategoryId;
      categories := categories[id := Category(name, description)];
      nextCategoryId := nextCategoryId + 1;
      r := Ok(id);
    }

    method GetCategory(id: CategoryId) returns (r: Response<Category>)
      ensures r.Ok? <==> id in categories
      ensures r.Ok? ==> r.value == categories[id]
      ensures !r.Ok? ==> r == NotFound(CategoryNotFound)
    {
      if id !in categories {
        return NotFound(CategoryNotFound);
      }
      r := Ok(categories[id]);
    }

    /** Update a category; a name it sets must not belong to another category. */
    method UpdateCategory(id: CategoryId, patch: CategoryPatch) returns (r: Response<Category>)
      requires Valid()
      modifies this
      ensures Valid()
      ensures old(Balanced()) ==> Balanced()
      ensures id !in old(categories) ==> r == NotFound(CategoryNotFound)
      ensures id in old(categories) && patch.name.Some? && NameInUse(old(categories) - {id}, patch.name.value) ==>
                r == ServerError(DuplicateKey)
      ensures r.Ok? <==>
                id in old(categories) && !(patch.name.Some? && NameInUse(old(categories) - {id}, patch.name.value))
      ensures !r.Ok? ==> unchanged(this)
      ensures r.Ok? ==>
                r.value == ApplyCategoryPatch(old(categories)[id], patch) && categories == old(categories)[id := r.value]
      ensures books == old(books) && loans == old(loans)
      ensures nextBookId == old(nextBookId) && nextCategoryId == old(nextCategoryId) && nextLoanId == old(nextLoanId)
    {
      if id !in categories {
        return NotFound(CategoryNotFound);
      }
      if patch.name.Some? && NameInUse(categories - {id}, patch.name.value) {
        return ServerError(DuplicateKey);
      }
      var updated := ApplyCategoryPatch(categories[id], patch);
      if patch.name.None? {
        NameOwnedOnce(categories, id);
      }
      StoreKeepsUniqueNames(categories, id, updated);
      categories := categories[id := updated];
      r := Ok(updated);
    }

    /** Delete a category, refused while any book belongs to it. */
    method DeleteCategory(id: CategoryId) returns (r: Response<()>)
      requires Valid()
      modifies this
      ensures Valid()
      ensures old(Balanced()) ==> Balanced()
      ensures id !in old(categories) ==> r == NotFound(CategoryNotFound)
      ensures id in old(categories) && BooksInCategory(books, id) != {} ==>
                r == BadRequest(CategoryInUse(|BooksInCategory(books, id)|))
      ensures r.Ok? <==> id in old(categories) && forall b :: b in books ==> books[b].category != id
      ensures !r.Ok? ==> unchanged(this)
      ensures r.Ok? ==> categories == old(categories) - {id}
      ensures books == old(books) && loans == old(loans)
      ensures nextBookId == old(nextBookId) && nextCategoryId == old(nextCategoryId) && nextLoanId == old(nextLoanId)
    {
      if id !in categories {
        return NotFound(CategoryNotFound);
      }
      var count := |BooksInCategory(books, id)|;
      if count > 0 {
        return BadRequest(CategoryInUse(count));
      }
      forall b | b in books
        ensures books[b].category != id
      {
        assert b !in BooksInCategory(books, id);
      }
      categories := categories - {id};
      r := Ok(());
    }
  }

  /** A fresh library with two students and one book with a single copy. */
  method SingleCopyLibrary() returns (lib: Library, book: BookId)
    ensures fresh(lib) && lib.Valid() && lib.Balanced()
    ensures lib.users == map[0 := Student, 1 := Student]
    ensures lib.loans == map[] && book in lib.books
    ensures lib.books[book].quantity == 1 && lib.books[book].available == 1
  {
    lib := new Library(map[0 := Student, 1 := Student], 2024);
    var c := lib.CreateCategory("Fiction", None);
    var b := lib.CreateBook(BookInput("Dune", "Frank Herbert", "9780441013593", c.value, None, Some(1965), Some(1)));
    book := b.value;
  }

  /** The single copy goes to the first student; the second is refused. */
  method IssueSingleCopy(now: int) returns (lib: Library, book: BookId, first: Response<LoanId>, second: Response<LoanId>)
    ensures fresh(lib) && lib.Valid() && lib.Balanced()
    ensures first.Ok? && second == BadRequest(NoCopiesAvailable)
    ensures lib.users == map[0 := Student, 1 := Student]
    ensures lib.loans.Keys == {first.value} && lib.loans[first.value] == NewLoan(book, 0, now, Some(now + 14 * DayMs))
    ensures book in lib.books && lib.books[book].quantity == 1 && lib.books[book].available == 0
  {
    lib, book := SingleCopyLibrary();
    first := lib.IssueBook(book, 0, None, now);
    second := lib.IssueBook(book, 1, None, now);
  }

  /**
   * One copy, two students: the first issue succeeds, the second is refused because
   * no copy is left, and after the return the second student gets the book.
   */
  method LendingScenario(now: int) returns (first: Response<LoanId>, second: Response<LoanId>, third: Response<LoanId>)
    ensures first.Ok? && third.Ok? && first.value != third.value
    ensures second == BadRequest(NoCopiesAvailable)
  {
    var lib, book;
    lib, book, first, second := IssueSingleCopy(now);
    var back := lib.ReturnBook(first.value, now + DayMs);
    assert lib.loans.Keys == {first.value} && lib.loans[first.value].status == Returned;
    NoIssuedAmongReturned(lib.loans, book, 1);
    third := lib.IssueBook(book, 1, None, now + DayMs);
  }
}

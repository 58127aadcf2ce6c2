# Library circulation: the lending engine

A Dafny model of the lending core of a library backend (Express and Mongoose). The backend keeps:

- a catalog of books, each with a `quantity` of copies and a counter of `available` ones;
- categories, which books reference;
- a ledger of loans ("issued books").

The model covers these parts:

- The loan record and its rules (`backend/models/IssuedBook.js`):
  - the three statuses `issued`, `overdue` and `returned`;
  - the defaults: status `issued`, fine 0, and a due date 14 days after issue;
  - the fine of Rs. 5 per started overdue day;
  - the status refresh.
- The issue/return coordinator and the listing and statistics handlers (`backend/controllers/issuedBookController.js`).
- The book counters and the pre-save hook that lowers `available` to `quantity` (`backend/models/Book.js`).
- The book and category handlers (`backend/controllers/bookController.js`, `backend/controllers/categoryController.js`). Their guards give the catalog its integrity: every book's category exists.

Modules:

- `LoanRecord` (loan_record.dfy): the loan document as a value. Each in-place update (the refresh, the overdue marking, the return) is a function from record to record.
- `BookRecord` (book_record.dfy): the book document and its validators, the clamp, the record a create request builds, and the field overwrite of an update request.
- `Ledger` (ledger.dfy): the loan table as a map, and the open-loan count per book. It also holds the duplicate-loan guard, the query filters and sort orders of the listings, and the loops that build a listing and refresh its loans.
- `Library` (library.dfy): the database as one class. The class has:
  - the book, category and loan tables as `map` fields;
  - id counters standing in for object ids;
  - a read-only user directory.

  Each request handler is a method that changes these fields and returns a `Response`: `Ok`, `NotFound` (404), `BadRequest` (400) or `ServerError` (500).

Two invariants:

- `Library.Valid`: ids are fresh, and every stored book passes its validators and names an existing category. ISBNs and category names are unique. Loans are well formed, and at most one loan per (book, user) pair has status `issued`. Every handler keeps it.
- `Library.Balanced`: for every book, `available` plus the number of open loans on the book equals `quantity`. A loan is open when it is `issued` or `overdue`. Every handler keeps it, except `UpdateBook`, which keeps it only when the update touches neither counter. From both invariants, `0 <= available <= quantity` follows (`CountersInRange`).

The clock is the parameter `now`, in milliseconds. One day is 86,400,000 ms.

Behaviour of the code that the model keeps as written:

- The duplicate-loan guard of `issueBook` (issuedBookController.js:43-47) matches only status `issued`. So a second open loan of a (book, user) pair can be created while the first one is `overdue`. The model keeps the invariant the code maintains: at most one `issued` loan per pair. `Ledger.GuardAdmitsSecondOpenLoan` exhibits such a second loan.
- "No copies", "already issued" and "already returned" are 400 answers (`BadRequest`).
- The statistics count `issued` and `overdue` loans separately (issuedBookController.js:269-270).
- Issue and return write two documents one after the other. The model runs each handler as one uninterrupted step.

## Model

| member | source | states |
|---|---|---|
| LoanRecord.NewLoan | backend/models/IssuedBook.js:19-49 | a new loan has status `issued`, fine 0 and no return date; its due date is the given one, or issue date + 14×24×60×60×1000 ms when none is given |
| LoanRecord.OverdueDays | backend/models/IssuedBook.js:59-60 | a positive lateness in ms counts as the number of started days: at least 1, with (days−1)·day < late ≤ days·day |
| LoanRecord.CalculateFine | backend/models/IssuedBook.js:52-64 | the fine is never negative; it is 0 for a returned loan, for a loan without a due date, and up to and including the due date; after it, the fine is a multiple of 5, at least 5, and 5 × the number of started overdue days |
| LoanRecord.FineOf | backend/models/IssuedBook.js:52-64 | a loan's fine is 0 exactly when the loan is returned or the clock has not passed the due date |
| LoanRecord.UpdateStatus | backend/models/IssuedBook.js:67-75 | only status and fine change; a loan with a return date becomes `returned` with its fine untouched; an unreturned loan past due becomes `overdue` with the fine recomputed (≥ 5); otherwise the loan is unchanged; well-formedness is kept |
| LoanRecord.MarkOverdue | backend/controllers/issuedBookController.js:187-191 | the overdue listing's update sets status `overdue` and the fine the loan owes at `now` (`FineOf`, so 5 × started overdue days; 0 exactly when not yet past due); nothing else changes |
| LoanRecord.CloseLoan | backend/controllers/issuedBookController.js:106-113 | returning stamps the return date, sets `returned`, and freezes the fine computed while the loan was still open; the result is well formed |
| LoanRecord.FineMonotone | backend/models/IssuedBook.js:58-63 | for a fixed due date, a later clock never gives a lower fine |
| LoanRecord.FineExamples | backend/models/IssuedBook.js:58-63 | fines at the boundaries: 0 at the due date; 5 after 1 ms and after exactly one day; 10 after one day and a second and after 25 h; 15 after three days; 0 once returned |
| LoanRecord.UpdateStatusIdempotent | backend/models/IssuedBook.js:67-75 | refreshing twice with the same clock equals refreshing once |
| LoanRecord.ReturnedLoanFrozen | backend/models/IssuedBook.js:68-69 | refreshing a returned loan changes nothing |
| LoanRecord.PredatedLoanOverdue | backend/models/IssuedBook.js:70-72 | a loan issued with a due date three days back is `overdue` with fine 15 on its first refresh |
| LoanRecord.DefaultLoanNotOverdueWithinPeriod | backend/models/IssuedBook.js:42-47 | within 14 days of issue, a loan with the default due date stays `issued` with no fine |
| BookRecord.ClampAvailable | backend/models/Book.js:59-64 | after the hook, available ≤ quantity; available is never raised; a book already within bounds is left as it is; only `available` changes |
| BookRecord.ClampIdempotent | backend/models/Book.js:59-64 | clamping twice equals clamping once |
| BookRecord.ClampKeepsValid | backend/models/Book.js:41-64 | the clamp keeps a valid book valid and leaves 0 ≤ available ≤ quantity |
| BookRecord.NegativeCountersRejected | backend/models/Book.js:41-51 | a book with a negative quantity or a negative available count fails validation |
| BookRecord.NewBook | backend/controllers/bookController.js:105-114 | a created book carries the requested title, author, ISBN, category, description and published year; available == quantity, with quantity 1 when the request gives none |
| BookRecord.ApplyPatch | backend/controllers/bookController.js:161-164 | for each of the eight fields, the value the update carries is written and an absent one keeps the stored value; the empty update is the identity |
| BookRecord.ValidBook | backend/models/Book.js:8-51 | the schema validators: title 1-200 characters, author 1-100, ISBN non-empty, description at most 1000, year from 1000 to the current year, quantity and available at least 0 |
| BookRecord.ValidPatch | backend/controllers/bookController.js:161-164 | the validators an update runs: the same bounds, checked only on the fields it carries |
| BookRecord.InvalidPatchRejected | backend/controllers/bookController.js:161-164 | an update with a field that fails its validator yields a book that fails validation, whatever the stored book; with PatchKeepsValid, the update's validators accept exactly the updates that keep every valid book valid |
| BookRecord.PatchKeepsValid | backend/controllers/bookController.js:161-164 | an update whose fields pass their validators keeps a valid book valid |
| Ledger.OpenCountAfterAdd | backend/controllers/issuedBookController.js:59-63 | adding a loan under a new id adds one to the open count of its book when it is open, and changes no other book's count |
| Ledger.OpenCountAfterClose | backend/controllers/issuedBookController.js:109-113 | closing an open loan takes one from its book's open count and changes no other book's count |
| Ledger.SameOpennessSameCount | backend/controllers/issuedBookController.js:150-155 | tables that agree on ids, books and openness have equal open counts on every book |
| Ledger.IssuedLoanExists | backend/controllers/issuedBookController.js:43-47 | the duplicate guard: some loan of this book to this user has status `issued` (an `overdue` loan does not count) |
| Ledger.Matches | backend/controllers/issuedBookController.js:144-244 | the four `find` filters of the listings: every loan (:144); open and due strictly before `now` (:178-181); the user's open loans (:212-215); all the user's loans (:244) |
| Ledger.NoIssuedAmongReturned | backend/controllers/issuedBookController.js:43-47 | when every loan is returned, the duplicate guard finds nothing |
| Ledger.AddKeepsUniqueIssued | backend/controllers/issuedBookController.js:43-63 | a loan let through by the guard keeps at most one `issued` loan per (book, user) |
| Ledger.ReplaceKeepsUniqueIssued | backend/controllers/issuedBookController.js:109-113 | saving a loan that is not `issued`, or stays `issued` to the same pair, keeps at most one `issued` loan per pair |
| Ledger.GuardAdmitsSecondOpenLoan | backend/controllers/issuedBookController.js:43-47 | with one overdue loan of a pair on the table, the guard finds no `issued` loan, and a second open loan of the same pair can be added |
| Ledger.InsertSorted | backend/controllers/issuedBookController.js:147 | inserting into a sorted listing keeps it sorted, adds exactly that id, and keeps it free of repeats |
| Ledger.FindSorted | backend/controllers/issuedBookController.js:178-184 | a listing query returns exactly the loans its filter matches, each once, in the handler's order |
| Ledger.RefreshEach | backend/controllers/issuedBookController.js:187-191 | the refresh loop changes exactly the listed loans, each by the given update, and keeps the table's ids |
| Library.LoansWithStatus | backend/controllers/issuedBookController.js:269-270 | the ids of the loans with a given status, all of them in the table |
| Library.Students | backend/controllers/issuedBookController.js:268 | the `role: 'student'` filter, taken as the definition of the users the statistics count; every one of them is in the directory |
| Library.BooksInCategory | backend/controllers/categoryController.js:127 | the books that reference a category; empty exactly when no stored book names it |
| Library.StatusPartition | backend/controllers/issuedBookController.js:269-270 | `issued` and `overdue` loans make up the open loans, and with `returned` ones the whole table |
| Library.IsbnOwnedOnce | backend/models/Book.js:21-26 | under the unique index, no other book carries a stored book's ISBN |
| Library.StoreKeepsUniqueIsbns | backend/models/Book.js:21-26 | storing a book whose ISBN no other book has keeps ISBNs unique |
| Library.RemoveKeepsUniqueIsbns | backend/controllers/bookController.js:192 | deleting a book keeps ISBNs unique |
| Library.NameOwnedOnce | backend/controllers/categoryController.js:68-72 | under the unique index, no other category carries a stored category's name |
| Library.StoreKeepsUniqueNames | backend/controllers/categoryController.js:61-72 | storing a category whose name no other category has keeps names unique |
| Library.RemoveKeepsUniqueNames | backend/controllers/categoryController.js:135 | deleting a category keeps names unique |
| Library.SetAvailableKeepsBooks | backend/controllers/issuedBookController.js:66-67 | changing only a book's available count, to a non-negative value, keeps the book table valid and its ISBNs unique |
| Library.BalanceAfterIssue | backend/controllers/issuedBookController.js:59-67 | adding an open loan and saving its book with one copy fewer keeps available + open loans == quantity for every book, and the saved count is exactly one lower |
| Library.BalanceAfterReturn | backend/controllers/issuedBookController.js:107-120 | closing an open loan and saving its book, if it exists, with one copy more keeps the balance for every book, and the saved count is exactly one higher |
| Library.QuantityUpdateUnbalances | backend/controllers/bookController.js:161-164 | a balanced book with one copy out, updated to quantity 2, is no longer balanced: the overwrite changes `quantity` but not `available` |
| Library.ApplyCategoryPatch | backend/controllers/categoryController.js:95-98 | an update writes the name and description it carries and keeps each one it does not carry |
| Library.Library.CountersInRange | backend/models/Book.js:41-51 | in a valid, balanced library every book has 0 ≤ available ≤ quantity |
| Library.Library.constructor | backend/models/Book.js:8-56 | the empty database (no books, categories or loans) is valid and balanced |
| Library.Library.IssueBook | backend/controllers/issuedBookController.js:13-84 | guards in order, each giving its own answer: book missing (404), no copy (400), user missing (404), an `issued` loan of the pair exists (400); succeeds exactly when all pass, and a refusal changes nothing; on success exactly one loan is added (status `issued`, the given due date or now + 14 days) and only that book is saved with available − 1 (exactly one lower when balanced); validity and balance are kept |
| Library.Library.ReturnBook | backend/controllers/issuedBookController.js:89-137 | an unknown loan gives 404 and an already-returned one 400, both with no change; otherwise the loan is closed with the fine computed while still open and the return stamped `now`, and the book, if it still exists, is saved with available + 1 (exactly one higher when balanced); validity and balance are kept |
| Library.Library.InsertLoan | backend/controllers/issuedBookController.js:59-63 | a loan document is stored under a fresh id; the database stays valid and nothing else changes |
| Library.Library.SaveLoan | backend/controllers/issuedBookController.js:113 | a changed loan document is stored over the old one; the database stays valid and nothing else changes |
| Library.Library.SaveBook | backend/models/Book.js:59-64 | saving a book with a changed count stores the clamped record; the database stays valid and nothing else changes |
| Library.Library.GetAllIssuedBooks | backend/controllers/issuedBookController.js:142-169 | lists every loan once, newest issue first; exactly the loans with status `issued` are refreshed; validity and balance are kept |
| Library.Library.GetOverdueBooks | backend/controllers/issuedBookController.js:174-205 | lists exactly the open loans due strictly before `now`, once each, earliest due first; each is marked `overdue` with the fine it owes at `now` (≥ 5); no other loan changes; validity and balance are kept |
| Library.Library.GetMyBooks | backend/controllers/issuedBookController.js:210-237 | lists exactly the user's open loans, newest issue first, and refreshes each of them; validity and balance are kept |
| Library.Library.GetMyHistory | backend/controllers/issuedBookController.js:242-260 | lists exactly the user's loans, once each, newest issue first |
| Library.Library.GetStats | backend/controllers/issuedBookController.js:265-290 | `totalIssued` counts exactly the `issued` loans and `totalOverdue` exactly the `overdue` ones, which together are the open loans and with `returned` ones the whole table; `totalUsers` counts the students; the book and category totals are the table sizes |
| Library.Library.CreateBook | backend/controllers/bookController.js:92-135 | missing category gives 400; a record failing validation gives 500; an ISBN in use gives 400; succeeds exactly when all pass, and a refusal changes nothing; on success exactly the new book is added, under a fresh id, with available == quantity; validity and balance are kept |
| Library.Library.GetBook | backend/controllers/bookController.js:32-52 | returns the stored book exactly when it exists, otherwise 404 |
| Library.Library.UpdateBook | backend/controllers/bookController.js:140-177 | missing book gives 404 and a missing category 400; then a field failing its validator gives 500 (ValidationFailed), and a new ISBN that is another book's gives 500 (DuplicateKey); succeeds exactly when, in addition, the given fields pass validation and a new ISBN is not another book's; a refusal changes nothing; on success only that book is overwritten, without the clamp; validity is kept, and balance when neither counter is set |
| Library.Library.DeleteBook | backend/controllers/bookController.js:182-205 | succeeds exactly when the book exists; removes that id alone and leaves every other book as it was; loans stay; validity and balance are kept |
| Library.Library.CreateCategory | backend/controllers/categoryController.js:57-80 | a name in use gives 400 with no change; otherwise exactly the new category is added under a fresh id |
| Library.Library.GetCategory | backend/controllers/categoryController.js:32-52 | returns the stored category exactly when it exists, otherwise 404 |
| Library.Library.UpdateCategory | backend/controllers/categoryController.js:85-111 | missing category gives 404; a new name that is another category's gives 500 (DuplicateKey); succeeds exactly when it exists and a new name is not another category's; a refusal changes nothing; on success only that category changes; validity is kept |
| Library.Library.DeleteCategory | backend/controllers/categoryController.js:116-148 | missing category gives 404; while any book references it, 400 carrying the number of such books, with no change; succeeds exactly when it exists and no book references it, and then removes only it; every book's category still exists |
| Library.SingleCopyLibrary | backend/controllers/bookController.js:105-114 | a fresh library with one book of one copy, none lent |
| Library.IssueSingleCopy | backend/controllers/issuedBookController.js:26-31 | with one copy, the first issue succeeds and the second is refused for lack of copies |
| Library.LendingScenario | backend/controllers/issuedBookController.js:116-120 | after the first borrower returns the single copy, the second borrower's issue succeeds with a new loan |

## Left out

- HTTP plumbing, authentication and the route guards are left out. Each handler's answer is a `Response` value, and its message text is a `Reason`.
- `populate`, and the projection of fields into responses, are left out. Handlers return ids or records.
- Each handler runs as one uninterrupted step. The model does not capture concurrency, or the non-atomic create-then-decrement of `issueBook` and return-then-increment of `returnBook`. Nor does it capture a failure between the two writes.
- Catch-all 500 answers from database or cast errors are left out. So are malformed ids and unparseable date strings. The one exception: a book failing its validators on create or update is modelled as `ServerError(ValidationFailed)`, and a duplicate ISBN or name on update as `ServerError(DuplicateKey)`.
- `Date` objects, calendars and daylight saving time are left out. Instants are integer milliseconds, and "+14 days" is +14 × 86,400,000 ms. `Math.ceil` of a floating-point quotient is modelled as exact integer ceiling division. `Math.abs` plays no role, because the difference is positive on that branch.
- Each handler reads one clock value `now`. The source reads the clock several times within a request, a few milliseconds apart:
  - `issueBook`: for the default due date (issuedBookController.js:57) and for the issue date default (IssuedBook.js:21).
  - `returnBook`: in `calculateFine` (IssuedBook.js:55) and for the return date (issuedBookController.js:110).
  - `getOverdueBooks`: for the query (issuedBookController.js:176) and in `calculateFine`.
  - `updateStatus`: for the comparison (IssuedBook.js:70) and in `calculateFine`.
- Counters are integers. In the source, `quantity` and `available` are JavaScript numbers, and a fractional quantity passes the validators (Book.js:41-51). With quantity 2.5, a third issue passes the `available <= 0` guard and creates its loan. Then the book's save fails `min: 0` and answers 500. The model cannot reach this.
- String lengths are counted in characters. Mongoose's `maxlength` (Book.js:13,19,34) counts UTF-16 code units, so strings outside the Basic Multilingual Plane are measured differently.
- A due date is `Some(d)` or `None`. The source's `dueDate ?` test (issuedBookController.js:57) also takes the default for a falsy `0` or `""`, which the model keeps as the given value.
- `BookPatch` cannot clear a field. An update carrying `publishedYear: ''` (as the book form sends) is cast to null and clears the stored year in the source.
- LoanRecord.NewLoan: the IssuedBook pre-save hook that fills a missing due date is modelled by the `None` case of `NewLoan`. It is unreachable from `issueBook`, which always passes a due date. In the source the `required` validator on `dueDate` also runs before the hook.
- Library.Library.UpdateBook: its contract keeps `Balanced` only when the update sets neither `quantity` nor `available`. `findByIdAndUpdate` overwrites the fields without running the pre-save clamp, so the source itself can break the balance. `QuantityUpdateUnbalances` gives such an update.
- Whitespace trimming of title, author and ISBN (`trim: true`) is not modelled. Strings are stored as given.
- `publishedYear`'s upper bound is the calendar year when the schema was loaded. It is the constant `maxYear`, fixed by the constructor.
- `getBooks`, `searchBooks` and `getCategories` are left out. `searchBooks` interprets the query as a regular expression, which the model does not capture.
- backend/models/Category.js and backend/models/User.js are not part of this model. Categories are given a name and an optional description, with a unique name as the duplicate answer of `createCategory` implies. A category's other validators are not modelled. Users are a read-only map from id to role.
- Mongo's order among equal sort keys is unspecified. The listings promise only a sorted order, and the model picks one.
- Documents are values in maps, not shared objects. A loan that a listing changes is stored back into the table, which is what its `save()` does.
- Ids are natural numbers from counters. Object id generation is not modelled beyond freshness.
- The seed script and the frontend are not part of this model.

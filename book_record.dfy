/**
 * The book record of backend/models/Book.js: its fields, the schema validators,
 * the defaults, and the pre-save hook that keeps `available` at most `quantity`;
 * plus the record a create request builds and the overwrite an update request applies
 * (backend/controllers/bookController.js).
 */
module BookRecord {
  import opened Wrappers

  type CategoryId = nat

  /** Copies a book gets when a request gives no quantity. */
  const DefaultQuantity: int := 1

  datatype Book = Book(
    title: string,
    author: string,
    isbn: string,
    category: CategoryId,
    description: Option<string>,
    publishedYear: Option<int>,
    quantity: int,
    available: int)

  /** The fields of a create request; an absent or empty string is the empty sequence. */
  datatype BookInput = BookInput(
    title: string,
    author: string,
    isbn: string,
    category: CategoryId,
    description: Option<string>,
    publishedYear: Option<int>,
    quantity: Option<int>)

  /** The fields of an update request; each field that is present overwrites the stored one. */
  datatype BookPatch = BookPatch(
    title: Option<string>,
    author: Option<string>,
    isbn: Option<string>,
    category: Option<CategoryId>,
    description: Option<string>,
    publishedYear: Option<int>,
    quantity: Option<int>,
    available: Option<int>)

  predicate ValidTitle(s: string) { 0 < |s| <= 200 }
  predicate ValidAuthor(s: string) { 0 < |s| <= 100 }
  predicate ValidIsbn(s: string) { 0 < |s| }
  predicate ValidDescription(s: string) { |s| <= 1000 }
  /** `maxYear` is the calendar year at the time the schema was loaded. */
  predicate ValidYear(y: int, maxYear: int) { 1000 <= y <= maxYear }

  /** The schema validators: required strings, length limits, year range, non-negative counters. */
  predicate ValidBook(b: Book, maxYear: int) {
    && ValidTitle(b.title)
    && ValidAuthor(b.author)
    && ValidIsbn(b.isbn)
    && (b.description.Some? ==> ValidDescription(b.description.value))
    && (b.publishedYear.Some? ==> ValidYear(b.publishedYear.value, maxYear))
    && b.quantity >= 0
    && b.available >= 0
  }

  /** The validators an update runs: only on the fields the update sets. */
  predicate ValidPatch(p: BookPatch, maxYear: int) {
    && (p.title.Some? ==> ValidTitle(p.title.value))
    && (p.author.Some? ==> ValidAuthor(p.author.value))
    && (p.isbn.Some? ==> ValidIsbn(p.isbn.value))
    && (p.description.Some? ==> ValidDescription(p.description.value))
    && (p.publishedYear.Some? ==> ValidYear(p.publishedYear.value, maxYear))
    && (p.quantity.Some? ==> p.quantity.value >= 0)
    && (p.available.Some? ==> p.available.value >= 0)
  }

  /** The pre-save hook: lower `available` to `quantity` when it exceeds it. */
  function ClampAvailable(b: Book): (r: Book)
    ensures r.available <= r.quantity
    ensures r.available <= b.available
    ensures b.available <= b.quantity ==> r == b
    ensures b.available > b.quantity ==> r.available == b.quantity
    ensures r == b.(available := r.available)
  {
    if b.available > b.quantity then b.(available := b.quantity) else b
  }

  /** A new book from a create request: every copy available, one copy by default. */
  function NewBook(input: BookInput): (b: Book)
    ensures b.available == b.quantity
    ensures input.quantity.None? ==> b.quantity == 1
    ensures input.quantity.Some? ==> b.quantity == input.quantity.value
    ensures b.isbn == input.isbn && b.category == input.category
    ensures b.title == input.title && b.author == input.author
    ensures b.description == input.description && b.publishedYear == input.publishedYear
  {
    var q := input.quantity.GetOr(DefaultQuantity);
    Book(input.title, input.author, input.isbn, input.category,
         input.description, input.publishedYear, q, q)
  }

  /** An update overwrites exactly the fields the request carries and keeps every other one. */
  function ApplyPatch(b: Book, p: BookPatch): (r: Book)
    ensures r.title == (if p.title.Some? then p.title.value else b.title)
    ensures r.author == (if p.author.Some? then p.author.value else b.author)
    ensures r.isbn == (if p.isbn.Some? then p.isbn.value else b.isbn)
    ensures r.category == (if p.category.Some? then p.category.value else b.category)
    ensures r.description == (if p.description.Some? then p.description else b.description)
    ensures r.publishedYear == (if p.publishedYear.Some? then p.publishedYear else b.publishedYear)
    ensures r.quantity == (if p.quantity.Some? then p.quantity.value else b.quantity)
    ensures r.available == (if p.available.Some? then p.available.value else b.available)
    ensures p == BookPatch(None, None, None, None, None, None, None, None) ==> r == b
  {
    Book(p.title.GetOr(b.title), p.author.GetOr(b.author), p.isbn.GetOr(b.isbn),
         p.category.GetOr(b.category), if p.description.Some? then p.description else b.description,
         if p.publishedYear.Some? then p.publishedYear else b.publishedYear,
         p.quantity.GetOr(b.quantity), p.available.GetOr(b.available))
  }

  /** The clamp does nothing to a book that already satisfies it, so applying it twice is applying it once. */
  lemma ClampIdempotent(b: Book)
    ensures ClampAvailable(ClampAvailable(b)) == ClampAvailable(b)
  {
  }

  /** The clamp runs after validation and cannot make a valid book invalid. */
  lemma ClampKeepsValid(b: Book, maxYear: int)
    requires ValidBook(b, maxYear)
    ensures ValidBook(ClampAvailable(b), maxYear)
    ensures 0 <= ClampAvailable(b).available <= ClampAvailable(b).quantity
  {
  }

  /** A valid book updated with fields that pass their validators is still valid. */
  lemma PatchKeepsValid(b: Book, p: BookPatch, maxYear: int)
    requires ValidBook(b, maxYear) && ValidPatch(p, maxYear)
    ensures ValidBook(ApplyPatch(b, p), maxYear)
  {
  }

  /** A field that fails its validator is written into the book, so the updated book fails validation. */
  lemma InvalidPatchRejected(b: Book, p: BookPatch, maxYear: int)
    requires !ValidPatch(p, maxYear)
    ensures !ValidBook(ApplyPatch(b, p), maxYear)
  {
  }

  /** A negative quantity or a negative `available` is refused by the validators. */
  lemma NegativeCountersRejected(b: Book, maxYear: int)
    requires b.quantity < 0 || b.available < 0
    ensures !ValidBook(b, maxYear)
  {
  }
}

/**
 * The stored record types (the mongoose schemas), the request bodies the
 * handlers read, the responses they send, and the `findOne` lookups they use.
 *
 * A record's `_id` is its position in its table: the core never deletes a
 * record, so positions are stable and are what references point to.
 */
module Records {
  import opened Wrappers

  datatype Author = Author(authorId: string, name: string, email: string)

  datatype Publisher = Publisher(publisherId: string, name: string, yearOfPublication: int)

  datatype Staff = Staff(staffId: string, name: string)

  /** `books` is the reader's list of book references; no handler of the core writes it. */
  datatype Reader = Reader(readerId: string, name: string, email: string, phone: string,
                           password: string, address: string, books: seq<nat>)

  /** `author` and `publisher` are positions in the author and publisher tables. */
  datatype Book = Book(bookId: string, title: string, author: nat, publisher: nat,
                       edition: string, price: real, availability: bool, stock: int)

  /** The schema also admits `overdue`, which no handler sets. */
  datatype IssueStatus = Issued | Returned | Overdue

  /**
   * A loan. `readerName` and `bookName` are the names the request gave;
   * `reader` and `book` are positions in the reader and book tables.
   * Dates are day numbers.
   */
  datatype BookIssue = BookIssue(readerName: string, bookName: string, reader: nat, book: nat,
                                 status: IssueStatus, issueDate: int, returnDate: int)

  // Request bodies. A string field that is absent or empty is "" (both are
  // falsy to the handlers); other fields that may be absent are options.

  datatype IssueRequest = IssueRequest(readerName: string, bookName: string, issueDate: Option<int>)

  datatype ReturnRequest = ReturnRequest(readerName: string, bookName: string)

  datatype AuthorRequest = AuthorRequest(name: string, email: string)

  datatype PublisherRequest = PublisherRequest(name: string, yearOfPublication: Option<int>)

  datatype StaffRequest = StaffRequest(name: string)

  datatype BookRequest = BookRequest(title: string, author: Option<nat>, publisher: Option<nat>,
                                     edition: string, price: Option<real>, stock: Option<int>)

  datatype ReaderRequest = ReaderRequest(name: string, email: string, phone: string,
                                         password: string, address: string)

  /** What a handler answered; `Status` gives the HTTP status code sent with it. */
  datatype Outcome =
    | Created              // 201: record created, or book issued
    | Done                 // 200: book returned, or book details fetched
    | BodyMissing          // 400: "Request body is missing"
    | MissingFields        // 400: a required field or parameter is absent or falsy
    | AlreadyExists        // 400: duplicate email, name, phone or title
    | BookUnavailable      // 400: "Book is not available"
    | AuthorNotFound       // 400: a book's author reference does not resolve
    | PublisherNotFound    // 400: a book's publisher reference does not resolve
    | BookNotFound         // 404
    | ReaderNotFound       // 404
    | ActiveIssueNotFound  // 404
    | ServerError          // 500: an exception inside the handler

  function Status(o: Outcome): int
  {
    match o
    case Created => 201
    case Done => 200
    case BodyMissing | MissingFields | AlreadyExists | BookUnavailable
      | AuthorNotFound | PublisherNotFound => 400
    case BookNotFound | ReaderNotFound | ActiveIssueNotFound => 404
    case ServerError => 500
  }

  /** A string field as the handlers test it: `!field` is true for an absent or empty string. */
  predicate Given(s: string) {
    s != ""
  }

  /** `findOne`: the position of the first record, in insertion order, that matches. */
  function FirstIndex<T>(xs: seq<T>, p: T -> bool): (r: Option<nat>)
    ensures r.Some? ==> r.value < |xs| && p(xs[r.value])
    ensures r.Some? ==> forall j :: 0 <= j < r.value ==> !p(xs[j])
    ensures r.None? <==> forall j :: 0 <= j < |xs| ==> !p(xs[j])
  {
    if xs == [] then None
    else if p(xs[0]) then Some(0)
    else match FirstIndex(xs[1..], p)
      case None => None
      case Some(k) => Some(k + 1)
  }

  /** `Book.findOne({title})` */
  function FindBook(books: seq<Book>, title: string): (r: Option<nat>)
    ensures r.Some? ==> r.value < |books| && books[r.value].title == title
    ensures r.Some? ==> forall j :: 0 <= j < r.value ==> books[j].title != title
    ensures r.None? <==> forall j :: 0 <= j < |books| ==> books[j].title != title
  {
    FirstIndex(books, (b: Book) => b.title == title)
  }

  /** `Reader.findOne({name})` */
  function FindReader(readers: seq<Reader>, name: string): (r: Option<nat>)
    ensures r.Some? ==> r.value < |readers| && readers[r.value].name == name
    ensures r.Some? ==> forall j :: 0 <= j < r.value ==> readers[j].name != name
    ensures r.None? <==> forall j :: 0 <= j < |readers| ==> readers[j].name != name
  {
    FirstIndex(readers, (x: Reader) => x.name == name)
  }

  /** `Author.findOne({email})` */
  function FindAuthorByEmail(authors: seq<Author>, email: string): (r: Option<nat>)
    ensures r.Some? ==> r.value < |authors| && authors[r.value].email == email
    ensures r.Some? ==> forall j :: 0 <= j < r.value ==> authors[j].email != email
    ensures r.None? <==> forall j :: 0 <= j < |authors| ==> authors[j].email != email
  {
    FirstIndex(authors, (a: Author) => a.email == email)
  }

  /** `Publisher.findOne({name})` */
  function FindPublisherByName(publishers: seq<Publisher>, name: string): (r: Option<nat>)
    ensures r.Some? ==> r.value < |publishers| && publishers[r.value].name == name
    ensures r.Some? ==> forall j :: 0 <= j < r.value ==> publishers[j].name != name
    ensures r.None? <==> forall j :: 0 <= j < |publishers| ==> publishers[j].name != name
  {
    FirstIndex(publishers, (p: Publisher) => p.name == name)
  }

  /** `Reader.findOne({$or: [{email}, {phone}]})` */
  function FindReaderByContact(readers: seq<Reader>, email: string, phone: string): (r: Option<nat>)
    ensures r.Some? ==> r.value < |readers| && (readers[r.value].email == email || readers[r.value].phone == phone)
    ensures r.Some? ==> forall j :: 0 <= j < r.value ==> readers[j].email != email && readers[j].phone != phone
    ensures r.None? <==> forall j :: 0 <= j < |readers| ==> readers[j].email != email && readers[j].phone != phone
  {
    FirstIndex(readers, (x: Reader) => x.email == email || x.phone == phone)
  }

  /** Which `issued` loans a count or a search is about. */
  datatype IssueQuery =
    | OnLoan(book: nat)                          // every issued loan of one book
    | Active(readerName: string, bookName: string)  // issued loans of one reader and book name

  predicate Matches(r: BookIssue, q: IssueQuery) {
    r.status == Issued &&
    match q
    case OnLoan(b) => r.book == b
    case Active(rn, bn) => r.readerName == rn && r.bookName == bn
  }

  /** `Book_Issue.findOne({reader_name, book_name, status: 'issued'})` */
  function FindActiveIssue(issues: seq<BookIssue>, readerName: string, bookName: string): (r: Option<nat>)
    ensures r.Some? ==> r.value < |issues| && Matches(issues[r.value], Active(readerName, bookName))
    ensures r.Some? ==> forall j :: 0 <= j < r.value ==> !Matches(issues[j], Active(readerName, bookName))
    ensures r.None? <==> forall j :: 0 <= j < |issues| ==> !Matches(issues[j], Active(readerName, bookName))
  {
    FirstIndex(issues, (x: BookIssue) => Matches(x, Active(readerName, bookName)))
  }

  /** The number of loans that match the query. */
  function CountMatching(issues: seq<BookIssue>, q: IssueQuery): nat
  {
    if issues == [] then 0
    else CountMatching(issues[..|issues| - 1], q) + (if Matches(issues[|issues| - 1], q) then 1 else 0)
  }

  function Indicator(b: bool): nat {
    if b then 1 else 0
  }

  /** No loan matches exactly when the count is zero. */
  lemma {:induction false} CountMatchingZero(issues: seq<BookIssue>, q: IssueQuery)
    ensures CountMatching(issues, q) == 0 <==> forall j :: 0 <= j < |issues| ==> !Matches(issues[j], q)
  {
    if issues != [] {
      var init := issues[..|issues| - 1];
      CountMatchingZero(init, q);
      assert forall j :: 0 <= j < |init| ==> init[j] == issues[j];
    }
  }

  /** Appending a loan adds one to the count exactly when it matches. */
  lemma CountMatchingAppend(issues: seq<BookIssue>, r: BookIssue, q: IssueQuery)
    ensures CountMatching(issues + [r], q) == CountMatching(issues, q) + Indicator(Matches(r, q))
  {
    assert (issues + [r])[..|issues|] == issues;
  }

  /** Rewriting one loan changes the count by what the old and new loan contribute. */
  lemma {:induction false} CountMatchingUpdate(issues: seq<BookIssue>, i: nat, r: BookIssue, q: IssueQuery)
    requires i < |issues|
    ensures CountMatching(issues[i := r], q) + Indicator(Matches(issues[i], q))
         == CountMatching(issues, q) + Indicator(Matches(r, q))
  {
    var n := |issues|;
    var updated := issues[i := r];
    if i == n - 1 {
      assert updated[..n - 1] == issues[..n - 1];
    } else {
      assert updated[..n - 1] == issues[..n - 1][i := r];
      CountMatchingUpdate(issues[..n - 1], i, r, q);
    }
  }
}

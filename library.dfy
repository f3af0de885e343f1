/**
 * The library service with its database: each collection is a field that the
 * handlers rewrite, in the order the handlers issue their writes. Every
 * handler is proved to end in the state the atomic step of module Handlers
 * describes, and to keep the store invariant.
 */
module Service {
  import opened Wrappers
  import opened Ids
  import opened Records
  import opened Handlers
  import IssueProperties
  import RegistrationProperties

  class Library {
    var authors: seq<Author>
    var publishers: seq<Publisher>
    var staff: seq<Staff>
    var readers: seq<Reader>
    var books: seq<Book>
    var issues: seq<BookIssue>

    ghost function State(): Store
      reads this
    {
      Store(authors, publishers, staff, readers, books, issues)
    }

    ghost predicate Valid()
      reads this
    {
      Inv(State())
    }

    /** An empty database. */
    constructor ()
      ensures State() == EmptyStore && Valid()
    {
      authors, publishers, staff := [], [], [];
      readers, books, issues := [], [], [];
      RegistrationProperties.EmptyStoreInv();
    }

    /** POST /api/bookissue */
    method IssueBook(body: Option<IssueRequest>) returns (o: Outcome)
      modifies this
      ensures Transition(o, State()) == Handlers.IssueBook(old(State()), body)
      ensures old(Valid()) ==> Valid()
    {
      ghost var before := State();
      if body.None? {
        return ServerError;
      }
      var req := body.value;
      if !Given(req.readerName) || !Given(req.bookName) || req.issueDate.None? {
        return MissingFields;
      }
      var foundBook := FindBook(books, req.bookName);
      if foundBook.None? {
        return BookNotFound;
      }
      var b := foundBook.value;
      var book := books[b];
      if !book.availability || book.stock <= 0 {
        return BookUnavailable;
      }
      var foundReader := FindReader(readers, req.readerName);
      if foundReader.None? {
        return ReaderNotFound;
      }
      var issueDate := req.issueDate.value;
      var returnDate := issueDate + LoanDays;
      var loan := BookIssue(req.readerName, req.bookName, foundReader.value, b, Issued, issueDate, returnDate);
      RecordLoan(loan);
      o := Created;
      if Inv(before) {
        IssueProperties.IssuePreservesInv(before, body);
      }
    }

    /**
     * The writes of a successful issue, in order: create the loan, `$inc` the
     * book's stock by -1, then clear its availability if the stock read
     * before the update, minus one, is at most 0.
     */
    method RecordLoan(loan: BookIssue)
      requires loan.book < |books|
      modifies this
      ensures issues == old(issues) + [loan]
      ensures books == old(books)[loan.book := Lend(old(books)[loan.book])]
      ensures authors == old(authors) && publishers == old(publishers)
      ensures staff == old(staff) && readers == old(readers)
    {
      var b := loan.book;
      var read := books[b];
      issues := issues + [loan];
      books := books[b := books[b].(stock := books[b].stock - 1)];
      if read.stock - 1 <= 0 {
        books := books[b := books[b].(availability := false)];
      }
    }

    /** PATCH /api/bookissue on day `today`. */
    method ReturnBook(body: Option<ReturnRequest>, today: int) returns (o: Outcome)
      modifies this
      ensures Transition(o, State()) == Handlers.ReturnBook(old(State()), body, today)
      ensures old(Valid()) ==> Valid()
    {
      ghost var before := State();
      if body.None? {
        return ServerError;
      }
      var req := body.value;
      if !Given(req.readerName) || !Given(req.bookName) {
        return MissingFields;
      }
      var found := FindActiveIssue(issues, req.readerName, req.bookName);
      if found.None? {
        return ActiveIssueNotFound;
      }
      var i := found.value;
      var loan := issues[i];
      issues := issues[i := loan.(status := Returned, returnDate := today)];
      if loan.book < |books| {
        books := books[loan.book := books[loan.book].(stock := books[loan.book].stock + 1)];
        books := books[loan.book := books[loan.book].(availability := true)];
        assert books == before.books[loan.book := Restock(before.books[loan.book])];
      }
      o := Done;
      assert Transition(o, State()) == Handlers.ReturnBook(before, body, today);
      if Inv(before) {
        IssueProperties.ReturnPreservesInv(before, body, today);
      }
    }

    /** POST /api/author */
    method AddAuthor(body: Option<AuthorRequest>) returns (o: Outcome)
      modifies this
      ensures Transition(o, State()) == Handlers.AddAuthor(old(State()), body)
      ensures old(Valid()) ==> Valid()
    {
      ghost var before := State();
      if body.None? {
        return BodyMissing;
      }
      var req := body.value;
      if !Given(req.name) || !Given(req.email) {
        return MissingFields;
      }
      if FindAuthorByEmail(authors, req.email).Some? {
        return AlreadyExists;
      }
      var count := |authors|;
      authors := authors + [Author(FormatId(AuthorPrefix, count), req.name, req.email)];
      o := Created;
      if Inv(before) {
        RegistrationProperties.AddAuthorPreservesInv(before, body);
      }
    }

    /** POST /api/publisher */
    method AddPublisher(body: Option<PublisherRequest>) returns (o: Outcome)
      modifies this
      ensures Transition(o, State()) == Handlers.AddPublisher(old(State()), body)
      ensures old(Valid()) ==> Valid()
    {
      ghost var before := State();
      if body.None? {
        return BodyMissing;
      }
      var req := body.value;
      if !Given(req.name) || req.yearOfPublication.None? || req.yearOfPublication.value == 0 {
        return MissingFields;
      }
      if FindPublisherByName(publishers, req.name).Some? {
        return AlreadyExists;
      }
      var count := |publishers|;
      publishers := publishers + [Publisher(FormatId(PublisherPrefix, count), req.name, req.yearOfPublication.value)];
      o := Created;
      if Inv(before) {
        RegistrationProperties.AddPublisherPreservesInv(before, body);
      }
    }

    /** POST /api/staff */
    method AddStaff(body: Option<StaffRequest>) returns (o: Outcome)
      modifies this
      ensures Transition(o, State()) == Handlers.AddStaff(old(State()), body)
      ensures old(Valid()) ==> Valid()
    {
      ghost var before := State();
      if body.None? {
        return BodyMissing;
      }
      var req := body.value;
      if !Given(req.name) {
        return MissingFields;
      }
      var count := |staff|;
      staff := staff + [Staff(FormatId(StaffPrefix, count), req.name)];
      o := Created;
      if Inv(before) {
        RegistrationProperties.AddStaffPreservesInv(before, body);
      }
    }

    /** POST /api/book */
    method AddBook(body: Option<BookRequest>) returns (o: Outcome)
      modifies this
      ensures Transition(o, State()) == Handlers.AddBook(old(State()), body)
      ensures old(Valid()) ==> Valid()
    {
      ghost var before := State();
      if body.None? {
        return BodyMissing;
      }
      var req := body.value;
      if !BookFieldsGiven(req) {
        return MissingFields;
      }
      if FindBook(books, req.title).Some? {
        return AlreadyExists;
      }
      var authorExists := req.author.value < |authors|;
      var publisherExists := req.publisher.value < |publishers|;
      if !authorExists {
        return AuthorNotFound;
      }
      if !publisherExists {
        return PublisherNotFound;
      }
      var count := |books|;
      var stock := req.stock.value;
      if stock < 0 {
        return ServerError;
      }
      books := books + [Book(FormatId(BookPrefix, count), req.title, req.author.value, req.publisher.value,
                             req.edition, req.price.value, stock > 0, stock)];
      o := Created;
      if Inv(before) {
        RegistrationProperties.AddBookPreservesInv(before, body);
      }
    }

    /** POST /api/reader */
    method RegisterReader(body: Option<ReaderRequest>) returns (o: Outcome)
      modifies this
      ensures Transition(o, State()) == Handlers.RegisterReader(old(State()), body)
      ensures old(Valid()) ==> Valid()
    {
      ghost var before := State();
      if body.None? {
        return BodyMissing;
      }
      var req := body.value;
      if !ReaderFieldsGiven(req) {
        return MissingFields;
      }
      if FindReaderByContact(readers, req.email, req.phone).Some? {
        return AlreadyExists;
      }
      var count := |readers|;
      readers := readers + [Reader(FormatId(ReaderPrefix, count), req.name, req.email, req.phone,
                                   req.password, req.address, [])];
      o := Created;
      if Inv(before) {
        RegistrationProperties.RegisterReaderPreservesInv(before, body);
      }
    }

    /**
     * GET /api/book?title=...: answers 200 with the book only when it is
     * marked available, which in a valid store means it has a copy on the shelf.
     */
    method LookupBook(title: string) returns (o: Outcome, book: Option<Book>)
      ensures (o, book) == Handlers.LookupBook(State(), title)
      ensures Valid() ==>
        (o == Done <==> Given(title) && exists i :: 0 <= i < |books| && books[i].title == title && books[i].stock > 0)
      ensures o == Done ==> book.Some? && book.value.title == title && book.value.availability
    {
      if !Given(title) {
        return MissingFields, None;
      }
      var found := FindBook(books, title);
      if found.None? {
        return BookNotFound, None;
      }
      if !books[found.value].availability {
        return BookUnavailable, None;
      }
      o, book := Done, Some(books[found.value]);
      if Valid() {
        IssueProperties.LookupBookAvailability(State(), title);
      }
    }
  }
}

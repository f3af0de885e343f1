/**
 * The request handlers of the library service, each as one atomic step
 * from the stored tables to an outcome and the new tables.
 */
module Handlers {
  import opened Wrappers
  import opened Ids
  import opened Records

  /** The six collections of the library database. */
  datatype Store = Store(authors: seq<Author>, publishers: seq<Publisher>, staff: seq<Staff>,
                         readers: seq<Reader>, books: seq<Book>, issues: seq<BookIssue>)

  datatype Transition = Transition(outcome: Outcome, after: Store)

  const AuthorPrefix: string := "AUTH"
  const PublisherPrefix: string := "PUB"
  const StaffPrefix: string := "STAFF"
  const BookPrefix: string := "BOOK"
  const ReaderPrefix: string := "READER"

  /** A loan is due this many days after it is issued. */
  const LoanDays: int := 7

  const EmptyStore: Store := Store([], [], [], [], [], [])

  // ---------------------------------------------------------------------
  // Field presence checks

  predicate IssueFieldsGiven(req: IssueRequest) {
    Given(req.readerName) && Given(req.bookName) && req.issueDate.Some?
  }

  predicate ReturnFieldsGiven(req: ReturnRequest) {
    Given(req.readerName) && Given(req.bookName)
  }

  predicate AuthorFieldsGiven(req: AuthorRequest) {
    Given(req.name) && Given(req.email)
  }

  /** `!yearOfPublication` also rejects the year 0. */
  predicate PublisherFieldsGiven(req: PublisherRequest) {
    Given(req.name) && req.yearOfPublication.Some? && req.yearOfPublication.value != 0
  }

  predicate StaffFieldsGiven(req: StaffRequest) {
    Given(req.name)
  }

  /** `!price` also rejects a price of 0; stock is only tested for `undefined`, so 0 passes. */
  predicate BookFieldsGiven(req: BookRequest) {
    Given(req.title) && req.author.Some? && req.publisher.Some? && Given(req.edition)
    && req.price.Some? && req.price.value != 0.0 && req.stock.Some?
  }

  predicate ReaderFieldsGiven(req: ReaderRequest) {
    Given(req.name) && Given(req.email) && Given(req.phone) && Given(req.password) && Given(req.address)
  }

  /** Whether a book can be lent: `!book.availability || book.stock <= 0` rejects it. */
  predicate Lendable(b: Book) {
    b.availability && b.stock > 0
  }

  /** The book after one copy is lent: `$inc: {stock: -1}`, then unavailable if none is left. */
  function Lend(b: Book): (r: Book)
    ensures r.stock == b.stock - 1
    ensures r == b.(stock := r.stock, availability := r.availability)
    ensures Lendable(b) ==> StockConsistent(r)
  {
    b.(stock := b.stock - 1, availability := if b.stock - 1 <= 0 then false else b.availability)
  }

  /** The book after one copy comes back: `$inc: {stock: 1}`, then available. */
  function Restock(b: Book): (r: Book)
    ensures r.stock == b.stock + 1 && r.availability
    ensures r == b.(stock := r.stock, availability := r.availability)
    ensures b.stock >= 0 ==> StockConsistent(r)
  {
    b.(stock := b.stock + 1, availability := true)
  }

  /** The store after a loan is recorded: the loan appended and its book lent. */
  function WithLoan(s: Store, loan: BookIssue): Store
    requires loan.book < |s.books|
  {
    s.(issues := s.issues + [loan], books := s.books[loan.book := Lend(s.books[loan.book])])
  }

  // ---------------------------------------------------------------------
  // Handlers

  /**
   * POST /api/bookissue. A missing body makes the destructuring throw, which
   * the handler's catch turns into a 500.
   */
  function IssueBook(s: Store, body: Option<IssueRequest>): (t: Transition)
    ensures t.outcome in {ServerError, MissingFields, BookNotFound, BookUnavailable, ReaderNotFound, Created}
    ensures t.outcome != Created ==> t.after == s
    ensures t.outcome == Created ==>
      |t.after.issues| == |s.issues| + 1 && t.after.issues[..|s.issues|] == s.issues && |t.after.books| == |s.books|
  {
    match body
    case None => Transition(ServerError, s)
    case Some(req) =>
      if !IssueFieldsGiven(req) then Transition(MissingFields, s)
      else match FindBook(s.books, req.bookName)
        case None => Transition(BookNotFound, s)
        case Some(b) =>
          var book := s.books[b];
          if !Lendable(book) then Transition(BookUnavailable, s)
          else match FindReader(s.readers, req.readerName)
            case None => Transition(ReaderNotFound, s)
            case Some(r) =>
              var day := req.issueDate.value;
              var loan := BookIssue(req.readerName, req.bookName, r, b, Issued, day, day + LoanDays);
              Transition(Created, WithLoan(s, loan))
  }

  /**
   * PATCH /api/bookissue, on day `today` (the handler's `new Date()`).
   * Updating a book id that no longer resolves changes nothing.
   */
  function ReturnBook(s: Store, body: Option<ReturnRequest>, today: int): (t: Transition)
    ensures t.outcome in {ServerError, MissingFields, ActiveIssueNotFound, Done}
    ensures t.outcome != Done ==> t.after == s
    ensures |t.after.issues| == |s.issues| && |t.after.books| == |s.books|
    ensures t.after == s.(issues := t.after.issues, books := t.after.books)
  {
    match body
    case None => Transition(ServerError, s)
    case Some(req) =>
      if !ReturnFieldsGiven(req) then Transition(MissingFields, s)
      else match FindActiveIssue(s.issues, req.readerName, req.bookName)
        case None => Transition(ActiveIssueNotFound, s)
        case Some(i) =>
          var loan := s.issues[i];
          var issues := s.issues[i := loan.(status := Returned, returnDate := today)];
          var books := if loan.book < |s.books| then s.books[loan.book := Restock(s.books[loan.book])] else s.books;
          Transition(Done, s.(issues := issues, books := books))
  }

  /** POST /api/author */
  function AddAuthor(s: Store, body: Option<AuthorRequest>): (t: Transition)
    ensures t.outcome in {BodyMissing, MissingFields, AlreadyExists, Created}
    ensures t.outcome != Created ==> t.after == s
    ensures t.outcome == Created ==>
      && |t.after.authors| == |s.authors| + 1 && t.after.authors[..|s.authors|] == s.authors
      && t.after.authors[|s.authors|].authorId == FormatId(AuthorPrefix, |s.authors|)
      && t.after == s.(authors := t.after.authors)
  {
    match body
    case None => Transition(BodyMissing, s)
    case Some(req) =>
      if !AuthorFieldsGiven(req) then Transition(MissingFields, s)
      else if FindAuthorByEmail(s.authors, req.email).Some? then Transition(AlreadyExists, s)
      else
        var author := Author(FormatId(AuthorPrefix, |s.authors|), req.name, req.email);
        Transition(Created, s.(authors := s.authors + [author]))
  }

  /** POST /api/publisher */
  function AddPublisher(s: Store, body: Option<PublisherRequest>): (t: Transition)
    ensures t.outcome in {BodyMissing, MissingFields, AlreadyExists, Created}
    ensures t.outcome != Created ==> t.after == s
    ensures t.outcome == Created ==>
      && |t.after.publishers| == |s.publishers| + 1 && t.after.publishers[..|s.publishers|] == s.publishers
      && t.after.publishers[|s.publishers|].publisherId == FormatId(PublisherPrefix, |s.publishers|)
      && t.after == s.(publishers := t.after.publishers)
  {
    match body
    case None => Transition(BodyMissing, s)
    case Some(req) =>
      if !PublisherFieldsGiven(req) then Transition(MissingFields, s)
      else if FindPublisherByName(s.publishers, req.name).Some? then Transition(AlreadyExists, s)
      else
        var publisher := Publisher(FormatId(PublisherPrefix, |s.publishers|), req.name, req.yearOfPublication.value);
        Transition(Created, s.(publishers := s.publishers + [publisher]))
  }

  /** POST /api/staff: no duplicate check. */
  function AddStaff(s: Store, body: Option<StaffRequest>): (t: Transition)
    ensures t.outcome in {BodyMissing, MissingFields, Created}
    ensures t.outcome != Created ==> t.after == s
    ensures t.outcome == Created ==>
      && |t.after.staff| == |s.staff| + 1 && t.after.staff[..|s.staff|] == s.staff
      && t.after.staff[|s.staff|].staffId == FormatId(StaffPrefix, |s.staff|)
      && t.after == s.(staff := t.after.staff)
  {
    match body
    case None => Transition(BodyMissing, s)
    case Some(req) =>
      if !StaffFieldsGiven(req) then Transition(MissingFields, s)
      else
        var member := Staff(FormatId(StaffPrefix, |s.staff|), req.name);
        Transition(Created, s.(staff := s.staff + [member]))
  }

  /**
   * POST /api/book. Both references are looked up before either is tested;
   * the author is tested first. A negative stock fails the schema's `min: 0`
   * validator inside `create`, which the catch turns into a 500.
   */
  function AddBook(s: Store, body: Option<BookRequest>): (t: Transition)
    ensures t.outcome in {BodyMissing, MissingFields, AlreadyExists, AuthorNotFound, PublisherNotFound,
                          ServerError, Created}
    ensures t.outcome != Created ==> t.after == s
    ensures t.outcome == Created ==>
      && |t.after.books| == |s.books| + 1 && t.after.books[..|s.books|] == s.books
      && t.after.books[|s.books|].bookId == FormatId(BookPrefix, |s.books|)
      && StockConsistent(t.after.books[|s.books|])
      && t.after.books[|s.books|].author < |s.authors| && t.after.books[|s.books|].publisher < |s.publishers|
      && t.after == s.(books := t.after.books)
  {
    match body
    case None => Transition(BodyMissing, s)
    case Some(req) =>
      if !BookFieldsGiven(req) then Transition(MissingFields, s)
      else if FindBook(s.books, req.title).Some? then Transition(AlreadyExists, s)
      else if req.author.value >= |s.authors| then Transition(AuthorNotFound, s)
      else if req.publisher.value >= |s.publishers| then Transition(PublisherNotFound, s)
      else if req.stock.value < 0 then Transition(ServerError, s)
      else
        var stock := req.stock.value;
        var book := Book(FormatId(BookPrefix, |s.books|), req.title, req.author.value, req.publisher.value,
                         req.edition, req.price.value, stock > 0, stock);
        Transition(Created, s.(books := s.books + [book]))
  }

  /** POST /api/reader */
  function RegisterReader(s: Store, body: Option<ReaderRequest>): (t: Transition)
    ensures t.outcome in {BodyMissing, MissingFields, AlreadyExists, Created}
    ensures t.outcome != Created ==> t.after == s
    ensures t.outcome == Created ==>
      && |t.after.readers| == |s.readers| + 1 && t.after.readers[..|s.readers|] == s.readers
      && t.after.readers[|s.readers|].readerId == FormatId(ReaderPrefix, |s.readers|)
      && t.after.readers[|s.readers|].books == []
      && t.after == s.(readers := t.after.readers)
  {
    match body
    case None => Transition(BodyMissing, s)
    case Some(req) =>
      if !ReaderFieldsGiven(req) then Transition(MissingFields, s)
      else if FindReaderByContact(s.readers, req.email, req.phone).Some? then Transition(AlreadyExists, s)
      else
        var reader := Reader(FormatId(ReaderPrefix, |s.readers|), req.name, req.email, req.phone,
                             req.password, req.address, []);
        Transition(Created, s.(readers := s.readers + [reader]))
  }

  /** GET /api/book?title=...: the book, only if it is marked available. */
  function LookupBook(s: Store, title: string): (r: (Outcome, Option<Book>))
    ensures r.0 in {MissingFields, BookNotFound, BookUnavailable, Done}
    ensures r.0 == Done <==> r.1.Some?
    ensures r.1.Some? ==> r.1.value in s.books && r.1.value.title == title && r.1.value.availability
  {
    if !Given(title) then (MissingFields, None)
    else match FindBook(s.books, title)
      case None => (BookNotFound, None)
      case Some(b) =>
        if !s.books[b].availability then (BookUnavailable, None)
        else (Done, Some(s.books[b]))
  }

  // ---------------------------------------------------------------------
  // The invariant every handler keeps

  /** Record i of each kind carries the identifier generated when i records existed. */
  ghost predicate IdsAssigned(s: Store) {
    && (forall i :: 0 <= i < |s.authors| ==> s.authors[i].authorId == FormatId(AuthorPrefix, i))
    && (forall i :: 0 <= i < |s.publishers| ==> s.publishers[i].publisherId == FormatId(PublisherPrefix, i))
    && (forall i :: 0 <= i < |s.staff| ==> s.staff[i].staffId == FormatId(StaffPrefix, i))
    && (forall i :: 0 <= i < |s.readers| ==> s.readers[i].readerId == FormatId(ReaderPrefix, i))
    && (forall i :: 0 <= i < |s.books| ==> s.books[i].bookId == FormatId(BookPrefix, i))
  }

  /** The keys the create handlers test for duplicates are unique. */
  ghost predicate KeysUnique(s: Store) {
    && (forall i, j :: 0 <= i < j < |s.authors| ==> s.authors[i].email != s.authors[j].email)
    && (forall i, j :: 0 <= i < j < |s.publishers| ==> s.publishers[i].name != s.publishers[j].name)
    && (forall i, j :: 0 <= i < j < |s.readers| ==> s.readers[i].email != s.readers[j].email)
    && (forall i, j :: 0 <= i < j < |s.readers| ==> s.readers[i].phone != s.readers[j].phone)
    && (forall i, j :: 0 <= i < j < |s.books| ==> s.books[i].title != s.books[j].title)
  }

  /** Stock is never negative and a book is available exactly when it has stock. */
  predicate StockConsistent(b: Book) {
    b.stock >= 0 && b.availability == (b.stock > 0)
  }

  ghost predicate BooksConsistent(s: Store) {
    forall i :: 0 <= i < |s.books| ==>
      StockConsistent(s.books[i]) && s.books[i].author < |s.authors| && s.books[i].publisher < |s.publishers|
  }

  /** Every loan points at a stored reader and book whose names it carries. */
  ghost predicate IssuesConsistent(s: Store) {
    forall j :: 0 <= j < |s.issues| ==>
      && s.issues[j].book < |s.books|
      && s.issues[j].reader < |s.readers|
      && s.books[s.issues[j].book].title == s.issues[j].bookName
      && s.readers[s.issues[j].reader].name == s.issues[j].readerName
  }

  ghost predicate Inv(s: Store) {
    IdsAssigned(s) && KeysUnique(s) && BooksConsistent(s) && IssuesConsistent(s)
  }
}

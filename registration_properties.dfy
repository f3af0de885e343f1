/** What the create handlers check, what they store, and the invariant they keep. */
module RegistrationProperties {
  import opened Wrappers
  import opened Ids
  import opened Records
  import opened Handlers

  // ---------------------------------------------------------------------
  // Outcomes of each create handler

  /** POST /api/author: body, then both fields, then a duplicate email; otherwise AUTHnnn is appended. */
  lemma AddAuthorOutcomes(s: Store, body: Option<AuthorRequest>)
    ensures var t := AddAuthor(s, body);
      && (t.outcome != Created ==> t.after == s && Status(t.outcome) == 400)
      && (t.outcome == BodyMissing <==> body.None?)
      && (t.outcome == MissingFields <==> body.Some? && !AuthorFieldsGiven(body.value))
      && (t.outcome == AlreadyExists <==>
            body.Some? && AuthorFieldsGiven(body.value)
            && exists i :: 0 <= i < |s.authors| && s.authors[i].email == body.value.email)
      && (t.outcome == Created <==>
            body.Some? && AuthorFieldsGiven(body.value)
            && forall i :: 0 <= i < |s.authors| ==> s.authors[i].email != body.value.email)
      && (t.outcome == Created ==>
            t.after == s.(authors := s.authors + [Author(FormatId("AUTH", |s.authors|), body.value.name, body.value.email)]))
  {
  }

  /** POST /api/publisher: a falsy year counts as missing; a duplicate name is rejected. */
  lemma AddPublisherOutcomes(s: Store, body: Option<PublisherRequest>)
    ensures var t := AddPublisher(s, body);
      && (t.outcome != Created ==> t.after == s && Status(t.outcome) == 400)
      && (t.outcome == BodyMissing <==> body.None?)
      && (t.outcome == MissingFields <==> body.Some? && !PublisherFieldsGiven(body.value))
      && (body.Some? && body.value.yearOfPublication == Some(0) ==> t.outcome == MissingFields)
      && (t.outcome == AlreadyExists <==>
            body.Some? && PublisherFieldsGiven(body.value)
            && exists i :: 0 <= i < |s.publishers| && s.publishers[i].name == body.value.name)
      && (t.outcome == Created <==>
            body.Some? && PublisherFieldsGiven(body.value)
            && forall i :: 0 <= i < |s.publishers| ==> s.publishers[i].name != body.value.name)
      && (t.outcome == Created ==>
            t.after == s.(publishers := s.publishers +
                 [Publisher(FormatId("PUB", |s.publishers|), body.value.name, body.value.yearOfPublication.value)]))
  {
  }

  /** POST /api/staff: any named staff member is appended, duplicates included. */
  lemma AddStaffOutcomes(s: Store, body: Option<StaffRequest>)
    ensures var t := AddStaff(s, body);
      && (t.outcome != Created ==> t.after == s && Status(t.outcome) == 400)
      && (t.outcome == BodyMissing <==> body.None?)
      && (t.outcome == Created <==> body.Some? && Given(body.value.name))
      && (t.outcome == Created ==>
            t.after == s.(staff := s.staff + [Staff(FormatId("STAFF", |s.staff|), body.value.name)]))
  {
  }

  /** POST /api/reader: a reader whose email or phone is already registered is rejected. */
  lemma RegisterReaderOutcomes(s: Store, body: Option<ReaderRequest>)
    ensures var t := RegisterReader(s, body);
      && (t.outcome != Created ==> t.after == s && Status(t.outcome) == 400)
      && (t.outcome == BodyMissing <==> body.None?)
      && (t.outcome == MissingFields <==> body.Some? && !ReaderFieldsGiven(body.value))
      && (t.outcome == AlreadyExists <==>
            body.Some? && ReaderFieldsGiven(body.value)
            && exists i :: 0 <= i < |s.readers|
                 && (s.readers[i].email == body.value.email || s.readers[i].phone == body.value.phone))
      && (t.outcome == Created <==>
            body.Some? && ReaderFieldsGiven(body.value)
            && forall i :: 0 <= i < |s.readers| ==>
                 s.readers[i].email != body.value.email && s.readers[i].phone != body.value.phone)
      && (t.outcome == Created ==>
            var req := body.value;
            t.after == s.(readers := s.readers +
              [Reader(FormatId("READER", |s.readers|), req.name, req.email, req.phone, req.password, req.address, [])]))
  {
  }

  /**
   * POST /api/book, in the handler's order: fields, duplicate title, author,
   * publisher. A stored book is available exactly when it has stock.
   */
  lemma AddBookOutcomes(s: Store, body: Option<BookRequest>)
    ensures var t := AddBook(s, body);
      && (t.outcome != Created ==> t.after == s)
      && (t.outcome == BodyMissing <==> body.None?)
      && (t.outcome == MissingFields <==> body.Some? && !BookFieldsGiven(body.value))
      && (t.outcome == AlreadyExists <==>
            body.Some? && BookFieldsGiven(body.value)
            && exists i :: 0 <= i < |s.books| && s.books[i].title == body.value.title)
      && (t.outcome == AuthorNotFound <==>
            body.Some? && BookFieldsGiven(body.value)
            && (forall i :: 0 <= i < |s.books| ==> s.books[i].title != body.value.title)
            && body.value.author.value >= |s.authors|)
      && (t.outcome == PublisherNotFound <==>
            body.Some? && BookFieldsGiven(body.value)
            && (forall i :: 0 <= i < |s.books| ==> s.books[i].title != body.value.title)
            && body.value.author.value < |s.authors| && body.value.publisher.value >= |s.publishers|)
      && (t.outcome in {BodyMissing, MissingFields, AlreadyExists, AuthorNotFound, PublisherNotFound} ==>
            Status(t.outcome) == 400)
      && (t.outcome == ServerError <==>
            body.Some? && BookFieldsGiven(body.value)
            && (forall i :: 0 <= i < |s.books| ==> s.books[i].title != body.value.title)
            && body.value.author.value < |s.authors| && body.value.publisher.value < |s.publishers|
            && body.value.stock.value < 0)
      && (t.outcome == ServerError ==> Status(t.outcome) == 500)
      && (t.outcome == Created <==>
            body.Some? && BookFieldsGiven(body.value)
            && (forall i :: 0 <= i < |s.books| ==> s.books[i].title != body.value.title)
            && body.value.author.value < |s.authors| && body.value.publisher.value < |s.publishers|
            && body.value.stock.value >= 0)
      && (t.outcome == Created ==>
            var req := body.value;
            var stock := req.stock.value;
            && stock >= 0
            && req.author.value < |s.authors| && req.publisher.value < |s.publishers|
            && t.after == s.(books := s.books +
                 [Book(FormatId("BOOK", |s.books|), req.title, req.author.value, req.publisher.value,
                       req.edition, req.price.value, stock > 0, stock)])
            && StockConsistent(t.after.books[|s.books|]))
  {
  }

  // ---------------------------------------------------------------------
  // Identifiers

  /**
   * While every record carries the identifier made from its position, no two
   * records of one kind share an identifier (so the schemas' unique indexes
   * on the identifiers never reject a create).
   */
  lemma IdsDistinct(s: Store)
    requires IdsAssigned(s)
    ensures forall i, j :: 0 <= i < j < |s.authors| ==> s.authors[i].authorId != s.authors[j].authorId
    ensures forall i, j :: 0 <= i < j < |s.publishers| ==> s.publishers[i].publisherId != s.publishers[j].publisherId
    ensures forall i, j :: 0 <= i < j < |s.staff| ==> s.staff[i].staffId != s.staff[j].staffId
    ensures forall i, j :: 0 <= i < j < |s.readers| ==> s.readers[i].readerId != s.readers[j].readerId
    ensures forall i, j :: 0 <= i < j < |s.books| ==> s.books[i].bookId != s.books[j].bookId
  {
    forall i: nat, j: nat, prefix: string | i < j
      ensures FormatId(prefix, i) != FormatId(prefix, j)
    {
      FormatIdInjective(prefix, i, j);
    }
  }

  /** The identifier a create handler generates is new for its kind. */
  lemma GeneratedIdIsFresh(s: Store)
    requires IdsAssigned(s)
    ensures forall i :: 0 <= i < |s.authors| ==> s.authors[i].authorId != FormatId(AuthorPrefix, |s.authors|)
    ensures forall i :: 0 <= i < |s.publishers| ==> s.publishers[i].publisherId != FormatId(PublisherPrefix, |s.publishers|)
    ensures forall i :: 0 <= i < |s.staff| ==> s.staff[i].staffId != FormatId(StaffPrefix, |s.staff|)
    ensures forall i :: 0 <= i < |s.readers| ==> s.readers[i].readerId != FormatId(ReaderPrefix, |s.readers|)
    ensures forall i :: 0 <= i < |s.books| ==> s.books[i].bookId != FormatId(BookPrefix, |s.books|)
  {
    forall i: nat, n: nat, prefix: string | i < n
      ensures FormatId(prefix, i) != FormatId(prefix, n)
    {
      FormatIdInjective(prefix, i, n);
    }
  }

  // ---------------------------------------------------------------------
  // The invariant

  lemma EmptyStoreInv()
    ensures Inv(EmptyStore)
  {
  }

  /** The author table's own facts survive appending an author with the next identifier and a new email. */
  lemma {:induction false} AppendAuthorKeepsAuthors(authors: seq<Author>, a: Author)
    requires forall i :: 0 <= i < |authors| ==> authors[i].authorId == FormatId(AuthorPrefix, i)
    requires forall i, j :: 0 <= i < j < |authors| ==> authors[i].email != authors[j].email
    requires a.authorId == FormatId(AuthorPrefix, |authors|)
    requires forall i :: 0 <= i < |authors| ==> authors[i].email != a.email
    ensures forall i :: 0 <= i < |authors + [a]| ==> (authors + [a])[i].authorId == FormatId(AuthorPrefix, i)
    ensures forall i, j :: 0 <= i < j < |authors + [a]| ==> (authors + [a])[i].email != (authors + [a])[j].email
  {
    var xs := authors + [a];
    assert forall i :: 0 <= i < |authors| ==> xs[i] == authors[i];
    assert xs[|authors|] == a;
  }

  /** Appending an author with the next identifier and a new email keeps the invariant. */
  lemma AppendAuthorPreservesInv(s: Store, a: Author)
    requires Inv(s)
    requires a.authorId == FormatId(AuthorPrefix, |s.authors|)
    requires forall i :: 0 <= i < |s.authors| ==> s.authors[i].email != a.email
    ensures Inv(s.(authors := s.authors + [a]))
  {
    var s' := s.(authors := s.authors + [a]);
    AppendAuthorKeepsAuthors(s.authors, a);
    assert IdsAssigned(s');
    assert KeysUnique(s');
    assert BooksConsistent(s');
    assert IssuesConsistent(s');
  }

  /** The publisher table's own facts survive appending a publisher with the next identifier and a new name. */
  lemma {:induction false} AppendPublisherKeepsPublishers(publishers: seq<Publisher>, p: Publisher)
    requires forall i :: 0 <= i < |publishers| ==> publishers[i].publisherId == FormatId(PublisherPrefix, i)
    requires forall i, j :: 0 <= i < j < |publishers| ==> publishers[i].name != publishers[j].name
    requires p.publisherId == FormatId(PublisherPrefix, |publishers|)
    requires forall i :: 0 <= i < |publishers| ==> publishers[i].name != p.name
    ensures forall i :: 0 <= i < |publishers + [p]| ==>
      (publishers + [p])[i].publisherId == FormatId(PublisherPrefix, i)
    ensures forall i, j :: 0 <= i < j < |publishers + [p]| ==> (publishers + [p])[i].name != (publishers + [p])[j].name
  {
    var xs := publishers + [p];
    assert forall i :: 0 <= i < |publishers| ==> xs[i] == publishers[i];
    assert xs[|publishers|] == p;
  }

  /** Appending a publisher with the next identifier and a new name keeps the invariant. */
  lemma AppendPublisherPreservesInv(s: Store, p: Publisher)
    requires Inv(s)
    requires p.publisherId == FormatId(PublisherPrefix, |s.publishers|)
    requires forall i :: 0 <= i < |s.publishers| ==> s.publishers[i].name != p.name
    ensures Inv(s.(publishers := s.publishers + [p]))
  {
    var s' := s.(publishers := s.publishers + [p]);
    AppendPublisherKeepsPublishers(s.publishers, p);
    assert IdsAssigned(s');
    assert KeysUnique(s');
    assert BooksConsistent(s');
    assert IssuesConsistent(s');
  }

  /** The staff table's identifiers stay in place when a member with the next identifier is appended. */
  lemma {:induction false} AppendStaffKeepsStaff(staff: seq<Staff>, m: Staff)
    requires forall i :: 0 <= i < |staff| ==> staff[i].staffId == FormatId(StaffPrefix, i)
    requires m.staffId == FormatId(StaffPrefix, |staff|)
    ensures forall i :: 0 <= i < |staff + [m]| ==> (staff + [m])[i].staffId == FormatId(StaffPrefix, i)
  {
    var xs := staff + [m];
    assert forall i :: 0 <= i < |staff| ==> xs[i] == staff[i];
    assert xs[|staff|] == m;
  }

  /** Appending a staff member with the next identifier keeps the invariant. */
  lemma AppendStaffPreservesInv(s: Store, m: Staff)
    requires Inv(s)
    requires m.staffId == FormatId(StaffPrefix, |s.staff|)
    ensures Inv(s.(staff := s.staff + [m]))
  {
    var s' := s.(staff := s.staff + [m]);
    AppendStaffKeepsStaff(s.staff, m);
    assert IdsAssigned(s');
    assert KeysUnique(s');
    assert BooksConsistent(s');
    assert IssuesConsistent(s');
  }

  /** The reader table's own facts survive appending a reader with the next identifier and new contacts. */
  lemma {:induction false} AppendReaderKeepsReaders(readers: seq<Reader>, r: Reader)
    requires forall i :: 0 <= i < |readers| ==> readers[i].readerId == FormatId(ReaderPrefix, i)
    requires forall i, j :: 0 <= i < j < |readers| ==> readers[i].email != readers[j].email
    requires forall i, j :: 0 <= i < j < |readers| ==> readers[i].phone != readers[j].phone
    requires r.readerId == FormatId(ReaderPrefix, |readers|)
    requires forall i :: 0 <= i < |readers| ==> readers[i].email != r.email && readers[i].phone != r.phone
    ensures forall i :: 0 <= i < |readers + [r]| ==> (readers + [r])[i].readerId == FormatId(ReaderPrefix, i)
    ensures forall i, j :: 0 <= i < j < |readers + [r]| ==> (readers + [r])[i].email != (readers + [r])[j].email
    ensures forall i, j :: 0 <= i < j < |readers + [r]| ==> (readers + [r])[i].phone != (readers + [r])[j].phone
  {
    var rs := readers + [r];
    assert forall i :: 0 <= i < |readers| ==> rs[i] == readers[i];
    assert rs[|readers|] == r;
  }

  /** Appending a reader with the next identifier, a new email and a new phone keeps the invariant. */
  lemma AppendReaderPreservesInv(s: Store, r: Reader)
    requires Inv(s)
    requires r.readerId == FormatId(ReaderPrefix, |s.readers|)
    requires forall i :: 0 <= i < |s.readers| ==> s.readers[i].email != r.email && s.readers[i].phone != r.phone
    ensures Inv(s.(readers := s.readers + [r]))
  {
    var s' := s.(readers := s.readers + [r]);
    AppendReaderKeepsReaders(s.readers, r);
    assert forall i :: 0 <= i < |s.readers| ==> s'.readers[i] == s.readers[i];
    assert IdsAssigned(s');
    assert KeysUnique(s');
    assert BooksConsistent(s');
    assert IssuesConsistent(s');
  }

  /**
   * The book table's own facts survive appending a book with the next
   * identifier, a new title, resolving references and consistent stock.
   */
  lemma {:induction false} AppendBookKeepsBooks(books: seq<Book>, b: Book, authors: nat, publishers: nat)
    requires forall i :: 0 <= i < |books| ==> books[i].bookId == FormatId(BookPrefix, i)
    requires forall i, j :: 0 <= i < j < |books| ==> books[i].title != books[j].title
    requires forall i :: 0 <= i < |books| ==>
      StockConsistent(books[i]) && books[i].author < authors && books[i].publisher < publishers
    requires b.bookId == FormatId(BookPrefix, |books|)
    requires forall i :: 0 <= i < |books| ==> books[i].title != b.title
    requires b.author < authors && b.publisher < publishers && StockConsistent(b)
    ensures forall i :: 0 <= i < |books + [b]| ==> (books + [b])[i].bookId == FormatId(BookPrefix, i)
    ensures forall i, j :: 0 <= i < j < |books + [b]| ==> (books + [b])[i].title != (books + [b])[j].title
    ensures forall i :: 0 <= i < |books + [b]| ==>
      StockConsistent((books + [b])[i]) && (books + [b])[i].author < authors && (books + [b])[i].publisher < publishers
  {
    var xs := books + [b];
    assert forall i :: 0 <= i < |books| ==> xs[i] == books[i];
    assert xs[|books|] == b;
  }

  /**
   * Appending a book with the next identifier, a new title, resolving
   * references and consistent stock keeps the invariant.
   */
  lemma AppendBookPreservesInv(s: Store, b: Book)
    requires Inv(s)
    requires b.bookId == FormatId(BookPrefix, |s.books|)
    requires forall i :: 0 <= i < |s.books| ==> s.books[i].title != b.title
    requires b.author < |s.authors| && b.publisher < |s.publishers| && StockConsistent(b)
    ensures Inv(s.(books := s.books + [b]))
  {
    var s' := s.(books := s.books + [b]);
    AppendBookKeepsBooks(s.books, b, |s.authors|, |s.publishers|);
    assert forall i :: 0 <= i < |s.books| ==> s'.books[i] == s.books[i];
    assert IdsAssigned(s');
    assert KeysUnique(s');
    assert BooksConsistent(s');
    assert IssuesConsistent(s');
  }

  lemma AddAuthorPreservesInv(s: Store, body: Option<AuthorRequest>)
    requires Inv(s)
    ensures Inv(AddAuthor(s, body).after)
  {
    AddAuthorOutcomes(s, body);
    if AddAuthor(s, body).outcome == Created {
      var req := body.value;
      AppendAuthorPreservesInv(s, Author(FormatId(AuthorPrefix, |s.authors|), req.name, req.email));
    }
  }

  lemma AddPublisherPreservesInv(s: Store, body: Option<PublisherRequest>)
    requires Inv(s)
    ensures Inv(AddPublisher(s, body).after)
  {
    AddPublisherOutcomes(s, body);
    if AddPublisher(s, body).outcome == Created {
      var req := body.value;
      AppendPublisherPreservesInv(s, Publisher(FormatId(PublisherPrefix, |s.publishers|), req.name,
                                               req.yearOfPublication.value));
    }
  }

  lemma AddStaffPreservesInv(s: Store, body: Option<StaffRequest>)
    requires Inv(s)
    ensures Inv(AddStaff(s, body).after)
  {
    AddStaffOutcomes(s, body);
    if AddStaff(s, body).outcome == Created {
      AppendStaffPreservesInv(s, Staff(FormatId(StaffPrefix, |s.staff|), body.value.name));
    }
  }

  lemma RegisterReaderPreservesInv(s: Store, body: Option<ReaderRequest>)
    requires Inv(s)
    ensures Inv(RegisterReader(s, body).after)
  {
    RegisterReaderOutcomes(s, body);
    if RegisterReader(s, body).outcome == Created {
      var req := body.value;
      assert FindReaderByContact(s.readers, req.email, req.phone).None?;
      AppendReaderPreservesInv(s, Reader(FormatId(ReaderPrefix, |s.readers|), req.name, req.email, req.phone,
                                         req.password, req.address, []));
    }
  }

  lemma AddBookPreservesInv(s: Store, body: Option<BookRequest>)
    requires Inv(s)
    ensures Inv(AddBook(s, body).after)
  {
    AddBookOutcomes(s, body);
    if AddBook(s, body).outcome == Created {
      var req := body.value;
      var stock := req.stock.value;
      AppendBookPreservesInv(s, Book(FormatId(BookPrefix, |s.books|), req.title, req.author.value,
                                     req.publisher.value, req.edition, req.price.value, stock > 0, stock));
    }
  }
}

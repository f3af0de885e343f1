/** What issuing and returning a book do to the store, and what they keep. */
module IssueProperties {
  import opened Wrappers
  import opened Records
  import opened Handlers

  // ---------------------------------------------------------------------
  // Issuing

  /**
   * The checks run in order (fields, book, its availability, reader), each
   * failure answers with its own status and leaves the store as it was.
   */
  lemma IssueRejections(s: Store, req: IssueRequest)
    ensures var t := IssueBook(s, Some(req));
      && (t.outcome != Created ==> t.after == s)
      && (t.outcome == MissingFields <==> !IssueFieldsGiven(req))
      && (t.outcome == BookNotFound <==>
            IssueFieldsGiven(req) && forall i :: 0 <= i < |s.books| ==> s.books[i].title != req.bookName)
      && (t.outcome == BookUnavailable <==>
            IssueFieldsGiven(req) && FindBook(s.books, req.bookName).Some?
            && !Lendable(s.books[FindBook(s.books, req.bookName).value]))
      && (t.outcome == ReaderNotFound <==>
            IssueFieldsGiven(req) && FindBook(s.books, req.bookName).Some?
            && Lendable(s.books[FindBook(s.books, req.bookName).value])
            && forall i :: 0 <= i < |s.readers| ==> s.readers[i].name != req.readerName)
      && (t.outcome in {MissingFields, BookUnavailable} ==> Status(t.outcome) == 400)
      && (t.outcome in {BookNotFound, ReaderNotFound} ==> Status(t.outcome) == 404)
      && (t.outcome in {MissingFields, BookNotFound, BookUnavailable, ReaderNotFound, Created})
      && (t.outcome == Created <==>
            IssueFieldsGiven(req) && FindBook(s.books, req.bookName).Some?
            && Lendable(s.books[FindBook(s.books, req.bookName).value])
            && exists i :: 0 <= i < |s.readers| && s.readers[i].name == req.readerName)
  {
  }

  /** Without a body the handler throws before touching the store. */
  lemma IssueWithoutBody(s: Store)
    ensures IssueBook(s, None) == Transition(ServerError, s)
    ensures Status(ServerError) == 500
  {
  }

  /**
   * A successful issue appends exactly one `issued` loan due seven days
   * later, takes one copy off the shelf of the book found, marks it
   * unavailable when that was the last copy, and changes nothing else.
   */
  lemma IssueEffect(s: Store, req: IssueRequest)
    requires IssueBook(s, Some(req)).outcome == Created
    ensures IssueFieldsGiven(req)
    ensures FindBook(s.books, req.bookName).Some? && FindReader(s.readers, req.readerName).Some?
    ensures var t := IssueBook(s, Some(req));
      var b := FindBook(s.books, req.bookName).value;
      var r := FindReader(s.readers, req.readerName).value;
      var day := req.issueDate.value;
      && Status(t.outcome) == 201
      && s.books[b].title == req.bookName && s.readers[r].name == req.readerName
      && t.after.issues == s.issues + [BookIssue(req.readerName, req.bookName, r, b, Issued, day, day + 7)]
      && |t.after.books| == |s.books|
      && s.books[b].stock > 0
      && t.after.books[b].stock == s.books[b].stock - 1
      && t.after.books[b].stock >= 0
      && t.after.books[b].availability == (t.after.books[b].stock > 0)
      && t.after.books[b] == s.books[b].(stock := t.after.books[b].stock,
                                         availability := t.after.books[b].availability)
      && (forall k :: 0 <= k < |s.books| && k != b ==> t.after.books[k] == s.books[k])
      && t.after.readers == s.readers && t.after.authors == s.authors
      && t.after.publishers == s.publishers && t.after.staff == s.staff
  {
  }

  /** Lending a lendable book on a loan that names it and its reader keeps the invariant. */
  lemma {:induction false} LendPreservesInv(s: Store, loan: BookIssue)
    requires Inv(s)
    requires loan.book < |s.books| && Lendable(s.books[loan.book])
    requires loan.reader < |s.readers|
    requires s.books[loan.book].title == loan.bookName && s.readers[loan.reader].name == loan.readerName
    ensures Inv(WithLoan(s, loan))
  {
    var s' := WithLoan(s, loan);
    assert IdsAssigned(s');
    assert KeysUnique(s');
    assert BooksConsistent(s');
    assert IssuesConsistent(s') by {
      forall j | 0 <= j < |s'.issues|
        ensures s'.issues[j].book < |s'.books| && s'.issues[j].reader < |s'.readers|
        ensures s'.books[s'.issues[j].book].title == s'.issues[j].bookName
        ensures s'.readers[s'.issues[j].reader].name == s'.issues[j].readerName
      {
        if j < |s.issues| {
          assert s'.issues[j] == s.issues[j];
        }
      }
    }
  }

  /** Proof step for IssuePreservesInv: the store a successful issue leaves, in terms of what it found. */
  lemma IssueCreatedStore(s: Store, body: Option<IssueRequest>)
    requires IssueBook(s, body).outcome == Created
    ensures body.Some? && body.value.issueDate.Some?
    ensures FindBook(s.books, body.value.bookName).Some? && FindReader(s.readers, body.value.readerName).Some?
    ensures var req := body.value;
      var b := FindBook(s.books, req.bookName).value;
      var day := req.issueDate.value;
      var loan := BookIssue(req.readerName, req.bookName, FindReader(s.readers, req.readerName).value,
                            b, Issued, day, day + LoanDays);
      && Lendable(s.books[b])
      && IssueBook(s, body).after == WithLoan(s, loan)
  {
  }

  lemma IssuePreservesInv(s: Store, body: Option<IssueRequest>)
    requires Inv(s)
    ensures Inv(IssueBook(s, body).after)
  {
    var t := IssueBook(s, body);
    if t.outcome == Created {
      IssueCreatedStore(s, body);
      var req := body.value;
      var day := req.issueDate.value;
      var b := FindBook(s.books, req.bookName).value;
      var loan := BookIssue(req.readerName, req.bookName, FindReader(s.readers, req.readerName).value,
                            b, Issued, day, day + LoanDays);
      LendPreservesInv(s, loan);
    } else {
      assert t.after == s;
    }
  }

  /**
   * Copies are conserved: for every book, copies on the shelf plus copies
   * out on `issued` loans is the same before and after an issue.
   */
  lemma IssueConservesCopies(s: Store, body: Option<IssueRequest>)
    ensures var t := IssueBook(s, body);
      |t.after.books| == |s.books| &&
      forall k :: 0 <= k < |s.books| ==>
        t.after.books[k].stock + CountMatching(t.after.issues, OnLoan(k))
          == s.books[k].stock + CountMatching(s.issues, OnLoan(k))
  {
    var t := IssueBook(s, body);
    if t.outcome == Created {
      var req := body.value;
      IssueEffect(s, req);
      var b := FindBook(s.books, req.bookName).value;
      var loan := t.after.issues[|s.issues|];
      assert t.after.issues == s.issues + [loan];
      forall k | 0 <= k < |s.books|
        ensures t.after.books[k].stock + CountMatching(t.after.issues, OnLoan(k))
             == s.books[k].stock + CountMatching(s.issues, OnLoan(k))
      {
        CountMatchingAppend(s.issues, loan, OnLoan(k));
      }
    }
  }

  // ---------------------------------------------------------------------
  // Returning

  /** Missing names answer 400, no active loan for the pair answers 404; neither changes the store. */
  lemma ReturnRejections(s: Store, req: ReturnRequest, today: int)
    ensures var t := ReturnBook(s, Some(req), today);
      && (t.outcome != Done ==> t.after == s)
      && (t.outcome == MissingFields <==> !ReturnFieldsGiven(req))
      && (t.outcome == MissingFields ==> Status(t.outcome) == 400)
      && (t.outcome == ActiveIssueNotFound ==> Status(t.outcome) == 404)
      && (t.outcome == Done ==> Status(t.outcome) == 200)
      && (t.outcome in {MissingFields, ActiveIssueNotFound, Done})
  {
  }

  /** The 404 is answered exactly when the pair has no `issued` loan. */
  lemma ReturnNotFoundIff(s: Store, req: ReturnRequest, today: int)
    requires ReturnFieldsGiven(req)
    ensures ReturnBook(s, Some(req), today).outcome == ActiveIssueNotFound
        <==> CountMatching(s.issues, Active(req.readerName, req.bookName)) == 0
  {
    CountMatchingZero(s.issues, Active(req.readerName, req.bookName));
  }

  /**
   * A successful return rewrites only the first matching loan, to `returned`
   * dated today, and puts one copy of its book back on the shelf, available.
   */
  lemma ReturnEffect(s: Store, req: ReturnRequest, today: int)
    requires ReturnBook(s, Some(req), today).outcome == Done
    ensures FindActiveIssue(s.issues, req.readerName, req.bookName).Some?
    ensures var t := ReturnBook(s, Some(req), today);
      var i := FindActiveIssue(s.issues, req.readerName, req.bookName).value;
      var loan := s.issues[i];
      && loan.status == Issued && loan.readerName == req.readerName && loan.bookName == req.bookName
      && (forall j :: 0 <= j < i ==> !Matches(s.issues[j], Active(req.readerName, req.bookName)))
      && t.after.issues == s.issues[i := loan.(status := Returned, returnDate := today)]
      && |t.after.books| == |s.books|
      && (loan.book < |s.books| ==>
            t.after.books[loan.book] == s.books[loan.book].(stock := s.books[loan.book].stock + 1,
                                                            availability := true))
      && (forall k :: 0 <= k < |s.books| && k != loan.book ==> t.after.books[k] == s.books[k])
      && t.after.readers == s.readers && t.after.authors == s.authors
      && t.after.publishers == s.publishers && t.after.staff == s.staff
  {
  }

  /** Closing loan i and restocking its book keeps the invariant. */
  lemma {:induction false} RestockPreservesInv(s: Store, i: nat, today: int)
    requires Inv(s) && i < |s.issues|
    ensures var loan := s.issues[i];
      Inv(s.(issues := s.issues[i := loan.(status := Returned, returnDate := today)],
             books := s.books[loan.book := Restock(s.books[loan.book])]))
  {
    var loan := s.issues[i];
    var s' := s.(issues := s.issues[i := loan.(status := Returned, returnDate := today)],
                 books := s.books[loan.book := Restock(s.books[loan.book])]);
    assert IdsAssigned(s');
    assert KeysUnique(s');
    assert BooksConsistent(s');
    assert IssuesConsistent(s') by {
      forall j | 0 <= j < |s'.issues|
        ensures s'.issues[j].book < |s'.books| && s'.issues[j].reader < |s'.readers|
        ensures s'.books[s'.issues[j].book].title == s'.issues[j].bookName
        ensures s'.readers[s'.issues[j].reader].name == s'.issues[j].readerName
      {
        assert s'.issues[j].book == s.issues[j].book && s'.issues[j].reader == s.issues[j].reader;
      }
    }
  }

  /** Proof step for ReturnPreservesInv: the store a successful return leaves, in terms of the loan it found. */
  lemma ReturnDoneStore(s: Store, body: Option<ReturnRequest>, today: int)
    requires IssuesConsistent(s)
    requires ReturnBook(s, body, today).outcome == Done
    ensures body.Some? && FindActiveIssue(s.issues, body.value.readerName, body.value.bookName).Some?
    ensures var i := FindActiveIssue(s.issues, body.value.readerName, body.value.bookName).value;
      var loan := s.issues[i];
      ReturnBook(s, body, today).after
        == s.(issues := s.issues[i := loan.(status := Returned, returnDate := today)],
              books := s.books[loan.book := Restock(s.books[loan.book])])
  {
  }

  lemma ReturnPreservesInv(s: Store, body: Option<ReturnRequest>, today: int)
    requires Inv(s)
    ensures Inv(ReturnBook(s, body, today).after)
  {
    if ReturnBook(s, body, today).outcome == Done {
      ReturnDoneStore(s, body, today);
      var req := body.value;
      RestockPreservesInv(s, FindActiveIssue(s.issues, req.readerName, req.bookName).value, today);
    } else if body.Some? {
      ReturnRejections(s, body.value, today);
    }
  }

  /**
   * Returning conserves copies too, for every book of every store: a loan
   * whose book no longer resolves counts towards no stored book.
   */
  lemma ReturnConservesCopies(s: Store, body: Option<ReturnRequest>, today: int)
    ensures var t := ReturnBook(s, body, today);
      |t.after.books| == |s.books| &&
      forall k :: 0 <= k < |s.books| ==>
        t.after.books[k].stock + CountMatching(t.after.issues, OnLoan(k))
          == s.books[k].stock + CountMatching(s.issues, OnLoan(k))
  {
    var t := ReturnBook(s, body, today);
    if t.outcome == Done {
      var req := body.value;
      ReturnEffect(s, req, today);
      var i := FindActiveIssue(s.issues, req.readerName, req.bookName).value;
      var loan := s.issues[i];
      forall k | 0 <= k < |s.books|
        ensures t.after.books[k].stock + CountMatching(t.after.issues, OnLoan(k))
             == s.books[k].stock + CountMatching(s.issues, OnLoan(k))
      {
        CountMatchingUpdate(s.issues, i, loan.(status := Returned, returnDate := today), OnLoan(k));
      }
    }
  }

  /** A successful return closes exactly one active loan of the pair. */
  lemma ReturnClosesOneLoan(s: Store, req: ReturnRequest, today: int)
    requires ReturnBook(s, Some(req), today).outcome == Done
    ensures CountMatching(ReturnBook(s, Some(req), today).after.issues, Active(req.readerName, req.bookName)) + 1
         == CountMatching(s.issues, Active(req.readerName, req.bookName))
  {
    ReturnEffect(s, req, today);
    var i := FindActiveIssue(s.issues, req.readerName, req.bookName).value;
    CountMatchingUpdate(s.issues, i, s.issues[i].(status := Returned, returnDate := today),
                        Active(req.readerName, req.bookName));
  }

  /**
   * Returning the same pair a second time succeeds exactly when the pair
   * had at least two active loans before the first return.
   */
  lemma SecondReturn(s: Store, req: ReturnRequest, today: int, later: int)
    requires ReturnBook(s, Some(req), today).outcome == Done
    ensures var s' := ReturnBook(s, Some(req), today).after;
      (ReturnBook(s', Some(req), later).outcome == Done <==>
         CountMatching(s.issues, Active(req.readerName, req.bookName)) >= 2)
    ensures var s' := ReturnBook(s, Some(req), today).after;
      ReturnBook(s', Some(req), later).outcome != Done ==> ReturnBook(s', Some(req), later).after == s'
  {
    var s' := ReturnBook(s, Some(req), today).after;
    ReturnClosesOneLoan(s, req, today);
    ReturnNotFoundIff(s', req, later);
  }

  /**
   * Proof step for IssueThenReturn: right after an issue, the return's
   * search finds a loan of the book just lent. It is an older loan or the
   * new one; either way it names that book, since titles are unique.
   */
  lemma IssuedLoanIsFound(s: Store, req: IssueRequest)
    requires Inv(s)
    requires IssueBook(s, Some(req)).outcome == Created
    ensures FindBook(s.books, req.bookName).Some?
    ensures var s1 := IssueBook(s, Some(req)).after;
      var found := FindActiveIssue(s1.issues, req.readerName, req.bookName);
      found.Some? && s1.issues[found.value].book == FindBook(s.books, req.bookName).value
  {
    var s1 := IssueBook(s, Some(req)).after;
    IssueEffect(s, req);
    var b := FindBook(s.books, req.bookName).value;
    assert Matches(s1.issues[|s.issues|], Active(req.readerName, req.bookName));
    var found := FindActiveIssue(s1.issues, req.readerName, req.bookName);
    var i := found.value;
    var loan := s1.issues[i];
    if i < |s.issues| {
      assert loan == s.issues[i];
      assert s.books[loan.book].title == req.bookName == s.books[b].title;
    }
  }

  /**
   * In a consistent store, returning a book just issued succeeds and puts
   * the book table back exactly as it was before the issue.
   */
  lemma IssueThenReturn(s: Store, req: IssueRequest, today: int)
    requires Inv(s)
    requires IssueBook(s, Some(req)).outcome == Created
    ensures var s1 := IssueBook(s, Some(req)).after;
      var t := ReturnBook(s1, Some(ReturnRequest(req.readerName, req.bookName)), today);
      t.outcome == Done && t.after.books == s.books
  {
    var s1 := IssueBook(s, Some(req)).after;
    var back := ReturnRequest(req.readerName, req.bookName);
    IssueEffect(s, req);
    IssuedLoanIsFound(s, req);
    var b := FindBook(s.books, req.bookName).value;
    var t := ReturnBook(s1, Some(back), today);
    assert t.outcome == Done;
    ReturnEffect(s1, back, today);
    assert t.after.books[b] == s.books[b];
    assert t.after.books == s.books;
  }

  // ---------------------------------------------------------------------
  // Looking a book up

  /**
   * In a consistent store, GET /api/book answers 200 with the book exactly
   * when a book of that title has a copy on the shelf.
   */
  lemma LookupBookAvailability(s: Store, title: string)
    requires Inv(s)
    ensures var (o, found) := LookupBook(s, title);
      && (o == Done <==> Given(title) && exists i :: 0 <= i < |s.books| && s.books[i].title == title && s.books[i].stock > 0)
      && (o == Done ==> found.Some? && found.value.title == title && found.value.stock > 0)
      && (o != Done ==> found.None?)
      && (o == BookNotFound <==> Given(title) && forall i :: 0 <= i < |s.books| ==> s.books[i].title != title)
  {
    var (o, found) := LookupBook(s, title);
    if Given(title) && FindBook(s.books, title).Some? {
      var b := FindBook(s.books, title).value;
      assert StockConsistent(s.books[b]);
      // The first match is the only one, since titles are unique.
      assert forall i :: 0 <= i < |s.books| && s.books[i].title == title ==> i == b;
    }
  }
}

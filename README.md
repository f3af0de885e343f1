# Library management service — a Dafny model

This project models the business rules of the library service's REST API
(`services/index.js`). The library database has six collections: authors,
publishers, staff, readers, books and book-issue records (loans). Each request
handler is modelled as one atomic step. A step takes the stored collections
and a request body. It returns an outcome, which carries an HTTP status code,
and the new collections.

- **Issuing and returning books.** `POST /api/bookissue` checks its fields.
  It looks the book up by title and rejects it if it is unavailable or out of
  stock. It then looks the reader up by name and appends an `issued` loan
  that is due 7 days after the issue date. Finally it takes one copy off the
  shelf and marks the book unavailable when none are left.
  `PATCH /api/bookissue` finds the first `issued` loan for the reader name
  and book name. It marks that loan `returned`, puts one copy back and marks
  the book available.
- **Registration.** `POST /api/author`, `/api/publisher`, `/api/staff`,
  `/api/book` and `/api/reader` check that the body and the required fields
  are present. Except for staff, they reject duplicates: an author by email,
  a publisher by name, a reader by email or phone, a book by title. A book
  also needs an existing author and publisher. The new record gets the
  identifier `PREFIX` followed by `String(count + 1).padStart(3, '0')`.
- **Availability check.** `GET /api/book` returns a book only if it is marked
  available.

Layout:

- `wrappers.dfy`: `Option`.
- `ids.dfy` (module `Ids`): `String(n)`, `padStart` and the identifier
  format, with its inverse `IdNumber`.
- `records.dfy` (module `Records`): the stored record types, the request
  bodies, the outcomes with their status codes, the `findOne` lookups and
  loan counting.
- `handlers.dfy` (module `Handlers`): each handler as a pure transition on a
  `Store` value, and the store invariant `Inv`.
- `issue_properties.dfy`, `registration_properties.dfy`: lemmas about the
  transitions.
- `library.dfy` (module `Service`): class `Library`. Its fields are the six
  collections. Each handler method does the handler's writes in the source's
  order: for an issue, create the loan, then `$inc` the stock, then clear
  availability. Each method is proved to end in the state of the atomic
  transition and to keep `Inv`.

Modelling choices:

- A record's Mongo `_id` is its position in its collection. The core never
  deletes records, so positions are stable.
- Dates are integer day numbers. The return handler's `new Date()` is the
  parameter `today`.
- A string request field that is absent or empty is `""`; both are falsy in
  the source. Other fields that may be absent are `Option`s. A `price` or
  `yearOfPublication` of 0 is falsy and is rejected as missing. `stock` is
  only tested against `undefined`, so a stock of 0 is accepted.
- A request with no body gets 400 from the create handlers, which test for it.
  In the issue and return handlers, destructuring an absent body throws.
  Their `catch` turns that into a 500. This assumes that `req.body` is
  `undefined` when no JSON body is sent, as with the Express 5 body parser;
  the `!req.body` guards of the create handlers are written for that. Under
  Express 4, `express.json()` leaves `{}` instead, and the issue and return
  handlers would answer 400 from their field checks.
- A negative `stock` passes the book handler's own checks. It then fails the
  schema's `min: 0` validator inside `create`, which makes the `catch` answer
  500 and store nothing.
- `Inv` states what the handlers keep:
  - record *i* of each kind has the identifier generated for count *i*;
  - the keys tested for duplicates are unique;
  - every book has `stock >= 0` and `availability == (stock > 0)`, and its
    author and publisher references resolve;
  - every loan points at a stored reader and book whose names it carries.

  The empty store satisfies `Inv`. The class methods promise `Inv` afterwards
  only if it held before; they are stated for any stored data.

Two facts about the code that the model relies on:

- No handler writes a reader's `books` field; the model keeps it unchanged.
- Availability is a stored field, set by the book, issue and return handlers;
  `Inv` states that they keep it equal to `stock > 0`.

## Model

| member | source | states |
|---|---|---|
| `Ids.DecimalString` | services/index.js:303 | `String(n)` for a count: at least one character, all decimal digits, leading `'0'` exactly when n is 0 |
| `Ids.PadStart` | services/index.js:303 | `padStart(width, fill)`: length is the larger of `width` and the input's length; the input is the suffix; every character before it is the fill |
| `Ids.FormatId` | services/index.js:301-303 | the identifier `PREFIX + String(count + 1).padStart(3, '0')` given to the record created when `count` records of its kind exist (also at lines 361-363, 415-417, 483-485 and 628-630): it starts with the prefix and has at least three characters after it |
| `Ids.DecimalStringRoundTrip` | services/index.js:303 | reading back the digits of `String(n)` gives n |
| `Ids.FormatIdShape` | services/index.js:301-303 | a generated identifier starts with its prefix, has at least three digits after it, and those digits denote count + 1 |
| `Ids.FormatIdInjective` | services/index.js:301-303 | different counts give different identifiers under one prefix |
| `Ids.FormatIdWidth` | services/index.js:303 | below 999 stored records the identifier is the prefix plus exactly three digits; from 999 on it is longer |
| `Ids.IdExamples` | services/index.js:303 | `AUTH001` for the first author, `BOOK007` for the seventh book, `READER042` for the 42nd reader |
| `Records.FirstIndex` | services/index.js:208 | `findOne`: returns the first position whose record matches, or none exactly when no record matches |
| `Records.FindBook` | services/index.js:208 | `Book.findOne({title})`: the first book with that title, or none exactly when no book has it |
| `Records.FindReader` | services/index.js:217 | `Reader.findOne({name})`: the first reader with that name, or none exactly when no reader has it |
| `Records.FindAuthorByEmail` | services/index.js:296 | the first author with that email, or none exactly when no author has it |
| `Records.FindPublisherByName` | services/index.js:356 | the first publisher with that name, or none exactly when no publisher has it |
| `Records.FindReaderByContact` | services/index.js:623 | the first reader with that email or that phone, or none exactly when no reader has either |
| `Records.FindActiveIssue` | services/index.js:263 | the first `issued` loan with both names, or none exactly when there is no such loan |
| `Records.CountMatchingZero` | services/index.js:263 | no loan matches a query exactly when the count of matching loans is zero |
| `Records.CountMatchingUpdate` | services/index.js:268-272 | rewriting one loan changes the count of matching loans by what the old and new loan contribute |
| `Handlers.IssueBook` | services/index.js:200-253 | `POST /api/bookissue` as one step: the only outcomes are 500 (no body), 400 (missing fields), 404 (no book), 400 (book unavailable), 404 (no reader) and 201; every rejection leaves the store unchanged; a 201 appends exactly one loan and keeps the book table's length |
| `Handlers.Lend` | services/index.js:238-241 | one copy goes out: stock drops by one, only stock and availability change, and lending a lendable book leaves `availability == (stock > 0)` with `stock >= 0` |
| `Handlers.ReturnBook` | services/index.js:255-284 | `PATCH /api/bookissue` as one step: the only outcomes are 500, 400, 404 and 200; every rejection leaves the store unchanged; only the loan and book tables change, and neither changes length |
| `Handlers.Restock` | services/index.js:275-276 | one copy comes back: stock rises by one, the book becomes available, nothing else changes, and a book with `stock >= 0` ends with `availability == (stock > 0)` |
| `Handlers.AddAuthor` | services/index.js:286-316 | `POST /api/author` as one step: outcomes 400 (three kinds) or 201; a rejection changes nothing; a 201 appends one author carrying the next `AUTH` identifier and changes no other table |
| `Handlers.AddPublisher` | services/index.js:346-376 | `POST /api/publisher` as one step: outcomes 400 (three kinds) or 201; a rejection changes nothing; a 201 appends one publisher carrying the next `PUB` identifier and changes no other table |
| `Handlers.AddStaff` | services/index.js:405-429 | `POST /api/staff` as one step: outcomes 400 (two kinds) or 201; a rejection changes nothing; a 201 appends one staff member carrying the next `STAFF` identifier and changes no other table |
| `Handlers.AddBook` | services/index.js:457-503 | `POST /api/book` as one step: outcomes 400 (five kinds), 500 or 201; a rejection changes nothing; a 201 appends one book carrying the next `BOOK` identifier, with resolving references and `availability == (stock > 0)`, and changes no other table |
| `Handlers.RegisterReader` | services/index.js:613-646 | `POST /api/reader` as one step: outcomes 400 (three kinds) or 201; a rejection changes nothing; a 201 appends one reader carrying the next `READER` identifier and an empty book list, and changes no other table |
| `Handlers.LookupBook` | services/index.js:505-533 | `GET /api/book` as one step: outcomes 400, 404, 400 or 200; a book is returned exactly on 200, and it is a stored, available book with the requested title |
| `Handlers.Inv` | services/index.js:25-198 | the store invariant: record *i* carries the identifier generated for count *i*; the keys tested for duplicates are unique (the unique indexes of the schemas); every book has `stock >= 0` (the `min: 0` of the schema), `availability == (stock > 0)` and resolving references; every loan points at a stored reader and book whose names it carries |
| `IssueProperties.IssueRejections` | services/index.js:204-220 | fields, then book, then its availability, then reader are checked in that order; each failure has its own outcome (400, 404, 400, 404) and leaves the store unchanged; a request that passes every check answers 201 |
| `IssueProperties.IssueWithoutBody` | services/index.js:202 | without a body the issue handler answers 500 and changes nothing |
| `IssueProperties.IssueEffect` | services/index.js:222-241 | a successful issue answers 201; it appends exactly one `issued` loan with the found reader and book, due issue date + 7; that book's stock drops by one and stays at least 0; its availability becomes `stock > 0`; other books, readers, authors, publishers and staff are unchanged |
| `IssueProperties.LendPreservesInv` | services/index.js:238-241 | lending a lendable book on a loan that names it and its reader keeps the store invariant |
| `IssueProperties.IssuePreservesInv` | services/index.js:200-253 | every issue request keeps the store invariant, including `availability == (stock > 0)` |
| `IssueProperties.IssueConservesCopies` | services/index.js:227-241 | for every book, copies on the shelf plus copies out on `issued` loans are the same after an issue |
| `IssueProperties.ReturnRejections` | services/index.js:259-266 | missing names answer 400 and no active loan answers 404; both leave the store unchanged; success answers 200 |
| `IssueProperties.ReturnNotFoundIff` | services/index.js:263-266 | the 404 is answered exactly when the reader/book pair has no `issued` loan |
| `IssueProperties.ReturnEffect` | services/index.js:268-276 | a successful return rewrites only the first matching `issued` loan, to `returned` dated today; its book's stock rises by one and it becomes available; all else is unchanged |
| `IssueProperties.RestockPreservesInv` | services/index.js:268-276 | closing a loan and restocking its book keeps the store invariant |
| `IssueProperties.ReturnPreservesInv` | services/index.js:255-284 | every return request keeps the store invariant |
| `IssueProperties.ReturnConservesCopies` | services/index.js:268-276 | in every store, for every book, copies on the shelf plus copies out are the same after a return |
| `IssueProperties.ReturnClosesOneLoan` | services/index.js:263-272 | a successful return lowers the pair's count of `issued` loans by exactly one |
| `IssueProperties.SecondReturn` | services/index.js:263-272 | returning the same pair again succeeds exactly when the pair had at least two `issued` loans; otherwise the second return changes nothing |
| `IssueProperties.IssueThenReturn` | services/index.js:200-284 | in a consistent store, returning a book just issued succeeds and restores the book table exactly |
| `IssueProperties.LookupBookAvailability` | services/index.js:505-527 | in a consistent store, `GET /api/book` answers 200 with the book exactly when a book of that title has stock; 404 exactly when no book has that title |
| `RegistrationProperties.AddAuthorOutcomes` | services/index.js:286-310 | the handler rejects a missing body, missing fields, or an email already registered with 400 and changes nothing; otherwise it appends the author with identifier `AUTH` + padded count + 1 |
| `RegistrationProperties.AddPublisherOutcomes` | services/index.js:346-370 | the handler rejects a missing body, a missing name or a falsy year (0 included), or a name already registered, with 400 and changes nothing; otherwise it appends the publisher as `PUB` + padded count + 1 |
| `RegistrationProperties.AddStaffOutcomes` | services/index.js:405-423 | any staff member with a name is appended as `STAFF` + padded count + 1, with no duplicate check; otherwise 400 and nothing changes |
| `RegistrationProperties.RegisterReaderOutcomes` | services/index.js:613-640 | the handler rejects a missing body, missing fields, or an email or phone already registered with 400 and changes nothing; otherwise it appends the reader as `READER` + padded count + 1 |
| `RegistrationProperties.AddBookOutcomes` | services/index.js:457-497 | the checks run in order: body, fields, duplicate title, author exists, publisher exists; each failure answers 400 and changes nothing; a negative stock answers 500; otherwise the book is appended as `BOOK` + padded count + 1 with `availability == (stock > 0)` |
| `RegistrationProperties.IdsDistinct` | services/index.js:301-303 | while each record carries the identifier of its position, no two records of one kind share an identifier |
| `RegistrationProperties.GeneratedIdIsFresh` | services/index.js:483-485 | the identifier a create handler generates differs from every stored identifier of its kind |
| `RegistrationProperties.EmptyStoreInv` | services/index.js:25-198 | an empty database satisfies the store invariant |
| `RegistrationProperties.AppendAuthorPreservesInv` | services/index.js:301-309 | appending an author with the next identifier and a new email keeps the invariant |
| `RegistrationProperties.AppendPublisherPreservesInv` | services/index.js:361-369 | appending a publisher with the next identifier and a new name keeps the invariant |
| `RegistrationProperties.AppendStaffPreservesInv` | services/index.js:415-422 | appending a staff member with the next identifier keeps the invariant |
| `RegistrationProperties.AppendReaderPreservesInv` | services/index.js:628-639 | appending a reader with the next identifier, a new email and a new phone keeps the invariant |
| `RegistrationProperties.AppendBookPreservesInv` | services/index.js:483-496 | appending a book with the next identifier, a new title, resolving references and consistent stock keeps the invariant |
| `RegistrationProperties.AddAuthorPreservesInv` | services/index.js:286-316 | every author request keeps the store invariant |
| `RegistrationProperties.AddPublisherPreservesInv` | services/index.js:346-376 | every publisher request keeps the store invariant |
| `RegistrationProperties.AddStaffPreservesInv` | services/index.js:405-429 | every staff request keeps the store invariant |
| `RegistrationProperties.RegisterReaderPreservesInv` | services/index.js:613-646 | every reader request keeps the store invariant |
| `RegistrationProperties.AddBookPreservesInv` | services/index.js:457-503 | every book request keeps the store invariant; in particular a new book starts with `availability == (stock > 0)` |
| `Service.Library.constructor` | services/index.js:25-198 | a new library has six empty collections and satisfies the invariant |
| `Service.Library.IssueBook` | services/index.js:200-253 | doing the handler's writes in order (create the loan, `$inc` the stock by -1, clear availability if the old stock minus one is at most 0) ends in exactly the state and outcome of the atomic issue step, and keeps the invariant |
| `Service.Library.RecordLoan` | services/index.js:227-241 | the writes of a successful issue in order (create the loan, `$inc` the stock by -1, clear availability when the stock read before, minus one, is at most 0) append exactly that loan and leave the book as `Lend` describes; the other tables are unchanged |
| `Service.Library.ReturnBook` | services/index.js:255-284 | doing the handler's writes in order (close the loan, `$inc` the stock by 1, set availability) ends in exactly the state and outcome of the atomic return step, and keeps the invariant |
| `Service.Library.AddAuthor` | services/index.js:286-316 | the author handler's checks and append give the atomic step's outcome and state, and keep the invariant |
| `Service.Library.AddPublisher` | services/index.js:346-376 | the publisher handler's checks and append give the atomic step's outcome and state, and keep the invariant |
| `Service.Library.AddStaff` | services/index.js:405-429 | the staff handler's check and append give the atomic step's outcome and state, and keep the invariant |
| `Service.Library.AddBook` | services/index.js:457-503 | the book handler's checks and append give the atomic step's outcome and state, and keep the invariant |
| `Service.Library.RegisterReader` | services/index.js:613-646 | the reader handler's checks and append give the atomic step's outcome and state, and keep the invariant |
| `Service.Library.LookupBook` | services/index.js:505-533 | `GET /api/book` changes nothing; it answers 200 only with an available book of that title; in a valid store it answers 200 exactly when such a book has stock |

## Left out

- Express routing, CORS, JSON parsing, the Mongo connection and the server start (`services/index.js:1-23`, `700-702`): these are I/O. A response is modelled as an `Outcome` (with its status code) plus the new store. Response messages and payloads are not modelled. The created record is the one appended to its collection.
- The rest of the Mongoose schema machinery: `populate`, timestamps and `ObjectId`s. References are positions in a collection. A reference that is not a well-formed ObjectId would raise a cast error and a 500; the model has no such references.
- The unique indexes are not modelled as a separate check. The handlers' own duplicate checks and the count-based identifiers keep every unique key unique (`Inv`, `IdsDistinct`), so the indexes never reject a write made by these handlers.
- Database failures and other exceptions are not modelled. The 500 answers that are modelled are an absent body in issue/return and a negative stock in book creation.
- JavaScript `Date`: parsing, time zones, month rollover in `setDate` and `toISOString` (`services/index.js:223-225`, `246`). Dates are day numbers, so the due date is `issueDate + 7`. An unparsable date string is not modelled.
- Types of JSON values other than the modelled ones, and JavaScript coercions (a non-string name, a numeric string as stock, `NaN` as a price): these are not modelled.
- Fractional stock: `stock` is modelled as an integer. The schema types it as a JavaScript `Number` with only `min: 0` (`services/index.js:120-124`), so the book handler accepts a stock such as 0.5. An issue passes the check at line 213, and the `$inc` at line 238 then leaves -0.5, because update operations do not run the `min` validator. The `stock >= 0` that `IssueEffect`, `Lend` and `Inv` state holds for integer stock only.
- `price` is a `real` and is only tested for presence and non-zero. `yearOfPublication` is only tested for presence and non-zero.
- `Ids.DecimalString`: JavaScript prints integers from 10^21 upward in exponent notation; the model always prints plain decimal digits, because no collection can reach that size.
- Concurrency: each handler is one atomic step. The race between two issues of the same book, and the gaps between a handler's separate writes (`services/index.js:238-241`, `275-276`), are not modelled.
- The list and lookup `GET` endpoints other than `GET /api/book` (`services/index.js:318-343`, `378-403`, `430-455`, `538-610`, `649-689`) and the health check (`services/index.js:692-698`): they only read.
- The `overdue` status is in the schema, but no handler sets it. Loans with that status are never matched by a return.
- Database seeding (`services/seedData.js`): it clears the six collections and inserts fixed records in identifier order, so a freshly seeded store satisfies `Inv`. Its two `issued` loans took no copy off the shelf, so the stock it records for those books does not count the copies out on loan. Its loans with no return date (`returnDate: null`) have no counterpart in the model, where the return date is a day number.
- The React client under `src/`: forms, views and fetch calls. Its availability filter only mirrors the server's check.

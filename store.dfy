/** The document store the handlers work on (the files under src/crud): four collections
    (books, loans, loan_renewals, loan_returns) kept in insertion order, and
    the create / get / existing / update / delete operations over them.

    Every lookup is a `find_one`, which answers with the first matching
    document in the collection's natural order; every write by id is an
    `update_one` / `delete_one` on the first document with that id. Record
    ids are drawn from one counter, as the database hands out fresh
    ObjectIds. Time is an integer timestamp in seconds. */
module Store {
  import opened Tables
  import opened Http
  import opened Models

  type Id = nat

  const SecondsPerDay := 86400
  /** `timedelta(days=14)`. */
  const LoanPeriod := 14 * SecondsPerDay

  /** How a renewal or return record stores the id of its loan: as the
      string the client sent (`Str`) or as an ObjectId (`Oid`). A store
      query for one never matches a document holding the other. */
  datatype Key = Str(id: Id) | Oid(id: Id)

  datatype Book = Book(
    id: Id,
    title: string,
    author: string,
    category: string,
    totalCount: nat,
    availableCount: nat)

  /** A stored loan; every stored loan carries both `date` and `returnDate`. */
  datatype Loan = Loan(
    id: Id,
    username: string,
    bookTitle: string,
    status: LoanStatus,
    date: int,
    returnDate: int)

  /** A stored renewal or return request (both collections share this schema). */
  datatype LibrarianRequest = LibrarianRequest(
    id: Id,
    loanId: Key,
    status: LibrarianStatus,
    date: int)

  /** A snapshot of the whole database. */
  datatype Db = Db(
    books: seq<Book>,
    loans: seq<Loan>,
    loanRenewals: seq<LibrarianRequest>,
    loanReturns: seq<LibrarianRequest>,
    nextId: nat)
  {
    /** Record ids are unique within each collection and below `nextId`. */
    ghost predicate Valid() {
      && BooksKeyed(books, nextId)
      && LoansKeyed(loans, nextId)
      && RequestsKeyed(loanRenewals, nextId)
      && RequestsKeyed(loanReturns, nextId)
    }
  }

  /** What a route handler does: the database it leaves and its answer. */
  datatype Outcome<+T> = Outcome(db: Db, result: Result<T>)

  ghost predicate BooksKeyed(books: seq<Book>, bound: nat) {
    && (forall i :: 0 <= i < |books| ==> books[i].id < bound)
    && (forall i, j :: 0 <= i < j < |books| ==> books[i].id != books[j].id)
  }

  ghost predicate LoansKeyed(loans: seq<Loan>, bound: nat) {
    && (forall i :: 0 <= i < |loans| ==> loans[i].id < bound)
    && (forall i, j :: 0 <= i < j < |loans| ==> loans[i].id != loans[j].id)
  }

  ghost predicate RequestsKeyed(reqs: seq<LibrarianRequest>, bound: nat) {
    && (forall i :: 0 <= i < |reqs| ==> reqs[i].id < bound)
    && (forall i, j :: 0 <= i < j < |reqs| ==> reqs[i].id != reqs[j].id)
  }

  // ---- find_one filters ---------------------------------------------------

  function BookIndex(books: seq<Book>, id: Id): Option<nat> {
    FindFirst(books, (b: Book) => b.id == id)
  }

  /** `get_book_by_title` is imported by the routes but not defined in
      src/crud/book.py; it is modelled as `find_one({"title": title})`. */
  function BookIndexByTitle(books: seq<Book>, title: string): Option<nat> {
    FindFirst(books, (b: Book) => b.title == title)
  }

  function LoanIndex(loans: seq<Loan>, id: Id): Option<nat> {
    FindFirst(loans, (l: Loan) => l.id == id)
  }

  /** `existing_loan`: the first loan matching BOTH the username and the title. */
  function ExistingLoanIndex(loans: seq<Loan>, username: string, title: string): Option<nat> {
    FindFirst(loans, (l: Loan) => l.username == username && l.bookTitle == title)
  }

  function RequestIndex(reqs: seq<LibrarianRequest>, id: Id): Option<nat> {
    FindFirst(reqs, (r: LibrarianRequest) => r.id == id)
  }

  function RequestIndexFor(reqs: seq<LibrarianRequest>, key: Key): Option<nat> {
    FindFirst(reqs, (r: LibrarianRequest) => r.loanId == key)
  }

  lemma BookIndexOf(books: seq<Book>, bound: nat, i: nat)
    requires BooksKeyed(books, bound) && i < |books|
    ensures BookIndex(books, books[i].id) == Some(i)
  {
    FindFirstOnly(books, (b: Book) => b.id == books[i].id, i);
  }

  lemma LoanIndexOf(loans: seq<Loan>, bound: nat, i: nat)
    requires LoansKeyed(loans, bound) && i < |loans|
    ensures LoanIndex(loans, loans[i].id) == Some(i)
  {
    FindFirstOnly(loans, (l: Loan) => l.id == loans[i].id, i);
  }

  lemma RequestIndexOf(reqs: seq<LibrarianRequest>, bound: nat, i: nat)
    requires RequestsKeyed(reqs, bound) && i < |reqs|
    ensures RequestIndex(reqs, reqs[i].id) == Some(i)
  {
    FindFirstOnly(reqs, (q: LibrarianRequest) => q.id == reqs[i].id, i);
  }

  /** `after` is `before` with the availability of book `i` moved by
      `delta`; its total and every other book are unchanged. */
  ghost predicate StockMoved(before: seq<Book>, after: seq<Book>, i: nat, delta: int) {
    && i < |before| == |after|
    && after[i].availableCount == before[i].availableCount + delta
    && after[i] == before[i].(availableCount := after[i].availableCount)
    && forall j :: 0 <= j < |before| && j != i ==> after[j] == before[j]
  }

  // ---- the `$set` of a partial update -------------------------------------

  /** `update_loan`'s `$set`: exactly the non-None fields of `u` are written;
      the id and every field `u` leaves None keep their stored value. */
  function ApplyLoanUpdate(l: Loan, u: LoanUpdate): (r: Loan)
    ensures r.id == l.id
    ensures u.username.None? ==> r.username == l.username
    ensures u.username.Some? ==> r.username == u.username.value
    ensures u.bookTitle.None? ==> r.bookTitle == l.bookTitle
    ensures u.bookTitle.Some? ==> r.bookTitle == u.bookTitle.value
    ensures u.date.None? ==> r.date == l.date
    ensures u.date.Some? ==> r.date == u.date.value
    ensures u.returnDate.None? ==> r.returnDate == l.returnDate
    ensures u.returnDate.Some? ==> r.returnDate == u.returnDate.value
    ensures u.status.None? ==> r.status == l.status
    ensures u.status.Some? ==> r.status == u.status.value
  {
    l.(username := u.username.GetOr(l.username),
       bookTitle := u.bookTitle.GetOr(l.bookTitle),
       date := u.date.GetOr(l.date),
       returnDate := u.returnDate.GetOr(l.returnDate),
       status := u.status.GetOr(l.status))
  }

  /** `update_book` writes only when some field of the update is not None. */
  predicate HasFields(u: BookUpdate) {
    u.title.Some? || u.author.Some? || u.category.Some? || u.totalCount.Some? || u.availableCount.Some?
  }

  /** `update_book`'s `$set`: exactly the non-None fields of `u` are written. */
  function ApplyBookUpdate(b: Book, u: BookUpdate): (r: Book)
    ensures r.id == b.id
    ensures !HasFields(u) ==> r == b
    ensures u.title.None? ==> r.title == b.title
    ensures u.title.Some? ==> r.title == u.title.value
    ensures u.author.None? ==> r.author == b.author
    ensures u.author.Some? ==> r.author == u.author.value
    ensures u.category.None? ==> r.category == b.category
    ensures u.category.Some? ==> r.category == u.category.value
    ensures u.totalCount.None? ==> r.totalCount == b.totalCount
    ensures u.totalCount.Some? ==> r.totalCount == u.totalCount.value
    ensures u.availableCount.None? ==> r.availableCount == b.availableCount
    ensures u.availableCount.Some? ==> r.availableCount == u.availableCount.value
  {
    b.(title := u.title.GetOr(b.title),
       author := u.author.GetOr(b.author),
       category := u.category.GetOr(b.category),
       totalCount := u.totalCount.GetOr(b.totalCount),
       availableCount := u.availableCount.GetOr(b.availableCount))
  }

  /** A `LoanUpdate` that gives only `return_date` still writes status PENDING. */
  lemma OmittedStatusWritesPending(l: Loan, d: int)
    ensures ApplyLoanUpdate(l, DefaultLoanUpdate().(returnDate := Some(d))) == l.(returnDate := d, status := LoanStatus.Pending)
  {
  }

  /** `update_book` with a `BookUpdate` that gives only text fields zeroes
      both counts, because the counts default to 0 rather than None. */
  lemma DefaultCountsAreWritten(b: Book, title: string)
    ensures HasFields(DefaultBookUpdate().(title := Some(title)))
    ensures ApplyBookUpdate(b, DefaultBookUpdate().(title := Some(title))) == b.(title := title, totalCount := 0, availableCount := 0)
  {
  }

  // ---- the crud reads -------------------------------------------------------
  // Each read takes the collection it queries.

  /** `get_book_by_id`: None for an absent id. */
  function GetBookById(books: seq<Book>, id: Id): (r: Option<Book>)
    ensures r.None? <==> forall j :: 0 <= j < |books| ==> books[j].id != id
    ensures r.Some? ==> r.value.id == id && r.value in books
  {
    match BookIndex(books, id)
    case Some(i) => Some(books[i])
    case None => None
  }

  /** `get_book_by_title`: the first book with that title, if any. */
  function GetBookByTitle(books: seq<Book>, title: string): (r: Option<Book>)
    ensures r.None? <==> forall j :: 0 <= j < |books| ==> books[j].title != title
    ensures r.Some? ==> r.value.title == title && r.value in books
  {
    match BookIndexByTitle(books, title)
    case Some(i) => Some(books[i])
    case None => None
  }

  /** `get_loan`: None for an absent id. */
  function GetLoan(loans: seq<Loan>, id: Id): (r: Option<Loan>)
    ensures r.None? <==> forall j :: 0 <= j < |loans| ==> loans[j].id != id
    ensures r.Some? ==> r.value.id == id && r.value in loans
  {
    match LoanIndex(loans, id)
    case Some(i) => Some(loans[i])
    case None => None
  }

  /** `existing_loan`: the first loan of that user for that title. */
  function ExistingLoan(loans: seq<Loan>, username: string, title: string): (r: Option<Loan>)
    ensures r.None? <==> forall j :: 0 <= j < |loans| ==> loans[j].username != username || loans[j].bookTitle != title
    ensures r.Some? ==> r.value.username == username && r.value.bookTitle == title && r.value in loans
  {
    match ExistingLoanIndex(loans, username, title)
    case Some(i) => Some(loans[i])
    case None => None
  }

  /** `get_loan_renewal`: None for an absent id. */
  function GetLoanRenewal(loanRenewals: seq<LibrarianRequest>, id: Id): (r: Option<LibrarianRequest>)
    ensures r.None? <==> forall j :: 0 <= j < |loanRenewals| ==> loanRenewals[j].id != id
    ensures r.Some? ==> r.value.id == id && r.value in loanRenewals
  {
    match RequestIndex(loanRenewals, id)
    case Some(i) => Some(loanRenewals[i])
    case None => None
  }

  /** `existing_loan_renewal`: queries the string form of the loan id,
      which is the form `create_loan_renewal` stores. */
  function ExistingLoanRenewal(loanRenewals: seq<LibrarianRequest>, loanId: Id): (r: Option<LibrarianRequest>)
    ensures r.None? <==> forall j :: 0 <= j < |loanRenewals| ==> loanRenewals[j].loanId != Str(loanId)
    ensures r.Some? ==> r.value.loanId == Str(loanId) && r.value in loanRenewals
  {
    match RequestIndexFor(loanRenewals, Str(loanId))
    case Some(i) => Some(loanRenewals[i])
    case None => None
  }

  /** `get_loan_return`: None for an absent id. */
  function GetLoanReturn(loanReturns: seq<LibrarianRequest>, id: Id): (r: Option<LibrarianRequest>)
    ensures r.None? <==> forall j :: 0 <= j < |loanReturns| ==> loanReturns[j].id != id
    ensures r.Some? ==> r.value.id == id && r.value in loanReturns
  {
    match RequestIndex(loanReturns, id)
    case Some(i) => Some(loanReturns[i])
    case None => None
  }

  /** `existing_loan_return`: queries `ObjectId(loan_id)`, so it matches
      only records holding the ObjectId form of the loan id. */
  function ExistingLoanReturn(loanReturns: seq<LibrarianRequest>, loanId: Id): (r: Option<LibrarianRequest>)
    ensures r.None? <==> forall j :: 0 <= j < |loanReturns| ==> loanReturns[j].loanId != Oid(loanId)
    ensures r.Some? ==> r.value.loanId == Oid(loanId) && r.value in loanReturns
  {
    match RequestIndexFor(loanReturns, Oid(loanId))
    case Some(i) => Some(loanReturns[i])
    case None => None
  }

  // ---- the database ---------------------------------------------------------

  /** The database handle: one field per collection, and the id counter. */
  class Library {
    var books: seq<Book>
    var loans: seq<Loan>
    var loanRenewals: seq<LibrarianRequest>
    var loanReturns: seq<LibrarianRequest>
    var nextId: nat

    function Snapshot(): Db
      reads this
    {
      Db(books, loans, loanRenewals, loanReturns, nextId)
    }

    ghost predicate Valid()
      reads this
    {
      Snapshot().Valid()
    }

    constructor (db: Db)
      requires db.Valid()
      ensures Valid() && Snapshot() == db
    {
      books, loans, loanRenewals, loanReturns, nextId := db.books, db.loans, db.loanRenewals, db.loanReturns, db.nextId;
    }

    // ---- src/crud/book.py ----

    /** `update_book`: writes the non-None fields (nothing when there are
        none), then re-reads the book; subscripting a missing book raises. */
    method UpdateBook(id: Id, u: BookUpdate) returns (r: Result<Book>)
      requires Valid()
      modifies this
      ensures Valid()
      ensures loans == old(loans) && loanRenewals == old(loanRenewals) && loanReturns == old(loanReturns) && nextId == old(nextId)
      ensures !HasFields(u) || BookIndex(old(books), id).None? ==> books == old(books)
      ensures HasFields(u) && BookIndex(old(books), id).Some? ==>
        var i := BookIndex(old(books), id).value;
        books == old(books)[i := ApplyBookUpdate(old(books)[i], u)]
      ensures r == match GetBookById(books, id) case Some(b) => Ok(b) case None => Err(ServerError)
    {
      var i := BookIndex(books, id);
      if HasFields(u) && i.Some? {
        books := books[i.value := ApplyBookUpdate(books[i.value], u)];
        FindFirstAgree(old(books), (b: Book) => b.id == id, books, (b: Book) => b.id == id);
      }
      var updated := GetBookById(books, id);
      r := if updated.Some? then Ok(updated.value) else Err(ServerError);
    }

    /** `delete_book`: False exactly when no book had that id. */
    method DeleteBook(id: Id) returns (deleted: bool)
      requires Valid()
      modifies this
      ensures Valid()
      ensures loans == old(loans) && loanRenewals == old(loanRenewals) && loanReturns == old(loanReturns) && nextId == old(nextId)
      ensures deleted <==> old(GetBookById(books, id)).Some?
      ensures deleted ==> books == RemoveAt(old(books), BookIndex(old(books), id).value)
      ensures !deleted ==> books == old(books)
    {
      var i := BookIndex(books, id);
      deleted := i.Some?;
      if deleted {
        books := RemoveAt(books, i.value);
      }
    }

    // ---- src/crud/loan.py ----

    /** `create_loan`: keeps username, title and status from the request,
        stamps `date = now` and `return_date = now + 14 days`, and answers
        with the stored loan. */
    method CreateLoan(c: LoanCreate, now: int) returns (created: Loan)
      requires Valid()
      modifies this
      ensures Valid()
      ensures created == Loan(old(nextId), c.username, c.bookTitle, c.status, now, now + LoanPeriod)
      ensures loans == old(loans) + [created] && nextId == old(nextId) + 1
      ensures books == old(books) && loanRenewals == old(loanRenewals) && loanReturns == old(loanReturns)
      ensures GetLoan(loans, created.id) == Some(created)
    {
      created := Loan(nextId, c.username, c.bookTitle, c.status, now, now + LoanPeriod);
      loans := loans + [created];
      nextId := nextId + 1;
      FindFirstOnly(loans, (l: Loan) => l.id == created.id, |loans| - 1);
    }

    /** `update_loan`: writes the non-None fields of `u` to the loan with
        that id (nothing if there is none) and answers with `get_loan(id)`. */
    method UpdateLoan(id: Id, u: LoanUpdate) returns (r: Option<Loan>)
      requires Valid()
      modifies this
      ensures Valid()
      ensures books == old(books) && loanRenewals == old(loanRenewals) && loanReturns == old(loanReturns) && nextId == old(nextId)
      ensures LoanIndex(old(loans), id).None? ==> loans == old(loans) && r == None
      ensures LoanIndex(old(loans), id).Some? ==>
        var i := LoanIndex(old(loans), id).value;
        loans == old(loans)[i := ApplyLoanUpdate(old(loans)[i], u)] && r == Some(loans[i])
      ensures r == GetLoan(loans, id)
    {
      var i := LoanIndex(loans, id);
      if i.Some? {
        loans := loans[i.value := ApplyLoanUpdate(loans[i.value], u)];
        FindFirstAgree(old(loans), (l: Loan) => l.id == id, loans, (l: Loan) => l.id == id);
      }
      r := GetLoan(loans, id);
    }

    /** `delete_loan`: False exactly when no loan had that id. */
    method DeleteLoan(id: Id) returns (deleted: bool)
      requires Valid()
      modifies this
      ensures Valid()
      ensures books == old(books) && loanRenewals == old(loanRenewals) && loanReturns == old(loanReturns) && nextId == old(nextId)
      ensures deleted <==> old(GetLoan(loans, id)).Some?
      ensures deleted ==> loans == RemoveAt(old(loans), LoanIndex(old(loans), id).value)
      ensures !deleted ==> loans == old(loans)
    {
      var i := LoanIndex(loans, id);
      deleted := i.Some?;
      if deleted {
        loans := RemoveAt(loans, i.value);
      }
    }

    // ---- src/crud/loan_renewal.py ----

    /** `create_loan_renewal`: stores the loan id as the client's string,
        the given status and `date = now`. */
    method CreateLoanRenewal(loanId: Id, status: LibrarianStatus, now: int) returns (created: LibrarianRequest)
      requires Valid()
      modifies this
      ensures Valid()
      ensures created == LibrarianRequest(old(nextId), Str(loanId), status, now)
      ensures loanRenewals == old(loanRenewals) + [created] && nextId == old(nextId) + 1
      ensures books == old(books) && loans == old(loans) && loanReturns == old(loanReturns)
      ensures GetLoanRenewal(loanRenewals, created.id) == Some(created)
    {
      created := LibrarianRequest(nextId, Str(loanId), status, now);
      loanRenewals := loanRenewals + [created];
      nextId := nextId + 1;
      FindFirstOnly(loanRenewals, (q: LibrarianRequest) => q.id == created.id, |loanRenewals| - 1);
    }

    /** `update_loan_renewal`: sets only the status, answers with the re-read record. */
    method UpdateLoanRenewal(id: Id, status: LibrarianStatus) returns (r: Option<LibrarianRequest>)
      requires Valid()
      modifies this
      ensures Valid()
      ensures books == old(books) && loans == old(loans) && loanReturns == old(loanReturns) && nextId == old(nextId)
      ensures RequestIndex(old(loanRenewals), id).None? ==> loanRenewals == old(loanRenewals) && r == None
      ensures RequestIndex(old(loanRenewals), id).Some? ==>
        var i := RequestIndex(old(loanRenewals), id).value;
        loanRenewals == old(loanRenewals)[i := old(loanRenewals)[i].(status := status)] && r == Some(loanRenewals[i])
      ensures r == GetLoanRenewal(loanRenewals, id)
    {
      var i := RequestIndex(loanRenewals, id);
      if i.Some? {
        loanRenewals := loanRenewals[i.value := loanRenewals[i.value].(status := status)];
        FindFirstAgree(old(loanRenewals), (q: LibrarianRequest) => q.id == id, loanRenewals, (q: LibrarianRequest) => q.id == id);
      }
      r := GetLoanRenewal(loanRenewals, id);
    }

    /** `delete_loan_renewal`: False exactly when no record had that id. */
    method DeleteLoanRenewal(id: Id) returns (deleted: bool)
      requires Valid()
      modifies this
      ensures Valid()
      ensures books == old(books) && loans == old(loans) && loanReturns == old(loanReturns) && nextId == old(nextId)
      ensures deleted <==> old(GetLoanRenewal(loanRenewals, id)).Some?
      ensures deleted ==> loanRenewals == RemoveAt(old(loanRenewals), RequestIndex(old(loanRenewals), id).value)
      ensures !deleted ==> loanRenewals == old(loanRenewals)
    {
      var i := RequestIndex(loanRenewals, id);
      deleted := i.Some?;
      if deleted {
        loanRenewals := RemoveAt(loanRenewals, i.value);
      }
    }

    // ---- src/crud/loan_return.py ----

    /** `create_loan_return`: stores the loan id as the client's string,
        the given status and `date = now`. */
    method CreateLoanReturn(loanId: Id, status: LibrarianStatus, now: int) returns (created: LibrarianRequest)
      requires Valid()
      modifies this
      ensures Valid()
      ensures created == LibrarianRequest(old(nextId), Str(loanId), status, now)
      ensures loanReturns == old(loanReturns) + [created] && nextId == old(nextId) + 1
      ensures books == old(books) && loans == old(loans) && loanRenewals == old(loanRenewals)
      ensures GetLoanReturn(loanReturns, created.id) == Some(created)
    {
      created := LibrarianRequest(nextId, Str(loanId), status, now);
      loanReturns := loanReturns + [created];
      nextId := nextId + 1;
      FindFirstOnly(loanReturns, (q: LibrarianRequest) => q.id == created.id, |loanReturns| - 1);
    }

    /** `update_loan_return`: sets only the status, answers with the re-read record. */
    method UpdateLoanReturn(id: Id, status: LibrarianStatus) returns (r: Option<LibrarianRequest>)
      requires Valid()
      modifies this
      ensures Valid()
      ensures books == old(books) && loans == old(loans) && loanRenewals == old(loanRenewals) && nextId == old(nextId)
      ensures RequestIndex(old(loanReturns), id).None? ==> loanReturns == old(loanReturns) && r == None
      ensures RequestIndex(old(loanReturns), id).Some? ==>
        var i := RequestIndex(old(loanReturns), id).value;
        loanReturns == old(loanReturns)[i := old(loanReturns)[i].(status := status)] && r == Some(loanReturns[i])
      ensures r == GetLoanReturn(loanReturns, id)
    {
      var i := RequestIndex(loanReturns, id);
      if i.Some? {
        loanReturns := loanReturns[i.value := loanReturns[i.value].(status := status)];
        FindFirstAgree(old(loanReturns), (q: LibrarianRequest) => q.id == id, loanReturns, (q: LibrarianRequest) => q.id == id);
      }
      r := GetLoanReturn(loanReturns, id);
    }

    /** `delete_loan_return`: False exactly when no record had that id. */
    method DeleteLoanReturn(id: Id) returns (deleted: bool)
      requires Valid()
      modifies this
      ensures Valid()
      ensures books == old(books) && loans == old(loans) && loanRenewals == old(loanRenewals) && nextId == old(nextId)
      ensures deleted <==> old(GetLoanReturn(loanReturns, id)).Some?
      ensures deleted ==> loanReturns == RemoveAt(old(loanReturns), RequestIndex(old(loanReturns), id).value)
      ensures !deleted ==> loanReturns == old(loanReturns)
    {
      var i := RequestIndex(loanReturns, id);
      deleted := i.Some?;
      if deleted {
        loanReturns := RemoveAt(loanReturns, i.value);
      }
    }
  }

  /** The handlers' stock write: `update_book(book["_id"],
      BookUpdate(available_count=…, total_count=book["total_count"]))` on the
      book at index `bi`, which changes that book's availability and nothing
      else. */
  method WriteAvailable(lib: Library, bi: nat, available: nat)
    requires lib.Valid() && bi < |lib.books|
    modifies lib
    ensures lib.Valid()
    ensures lib.books == old(lib.books)[bi := old(lib.books)[bi].(availableCount := available)]
    ensures lib.loans == old(lib.loans) && lib.loanRenewals == old(lib.loanRenewals)
    ensures lib.loanReturns == old(lib.loanReturns) && lib.nextId == old(lib.nextId)
  {
    var book := lib.books[bi];
    BookIndexOf(lib.books, lib.nextId, bi);
    var stored := lib.UpdateBook(book.id, CountsUpdate(book.totalCount, available));
  }

  /** `update_loan(loan["_id"], u)` on the loan at index `li`: that loan
      takes the non-None fields of `u`, and the re-read loan is answered. */
  method WriteLoan(lib: Library, li: nat, u: LoanUpdate) returns (updated: Loan)
    requires lib.Valid() && li < |lib.loans|
    modifies lib
    ensures lib.Valid()
    ensures updated == ApplyLoanUpdate(old(lib.loans)[li], u)
    ensures lib.loans == old(lib.loans)[li := updated]
    ensures lib.books == old(lib.books) && lib.loanRenewals == old(lib.loanRenewals)
    ensures lib.loanReturns == old(lib.loanReturns) && lib.nextId == old(lib.nextId)
  {
    var loan := lib.loans[li];
    LoanIndexOf(lib.loans, lib.nextId, li);
    var r := lib.UpdateLoan(loan.id, u);
    updated := r.value;
  }

  /** `update_loan_return` on the request stored at position `ri`. */
  method WriteReturnStatus(lib: Library, ri: nat, status: LibrarianStatus)
    requires lib.Valid() && ri < |lib.loanReturns|
    modifies lib
    ensures lib.Valid()
    ensures lib.loanReturns == old(lib.loanReturns)[ri := old(lib.loanReturns)[ri].(status := status)]
    ensures lib.books == old(lib.books) && lib.loans == old(lib.loans)
    ensures lib.loanRenewals == old(lib.loanRenewals) && lib.nextId == old(lib.nextId)
  {
    RequestIndexOf(lib.loanReturns, lib.nextId, ri);
    var r := lib.UpdateLoanReturn(lib.loanReturns[ri].id, status);
  }

  /** `update_loan_renewal` on the request stored at position `ri`. */
  method WriteRenewalStatus(lib: Library, ri: nat, status: LibrarianStatus)
    requires lib.Valid() && ri < |lib.loanRenewals|
    modifies lib
    ensures lib.Valid()
    ensures lib.loanRenewals == old(lib.loanRenewals)[ri := old(lib.loanRenewals)[ri].(status := status)]
    ensures lib.books == old(lib.books) && lib.loans == old(lib.loans)
    ensures lib.loanReturns == old(lib.loanReturns) && lib.nextId == old(lib.nextId)
  {
    RequestIndexOf(lib.loanRenewals, lib.nextId, ri);
    var r := lib.UpdateLoanRenewal(lib.loanRenewals[ri].id, status);
  }

  /** Every return record is created holding the string form of its loan
      id, so `existing_loan_return`'s ObjectId query never finds one. */
  ghost predicate ReturnKeysAreStrings(loanReturns: seq<LibrarianRequest>) {
    forall i :: 0 <= i < |loanReturns| ==> loanReturns[i].loanId.Str?
  }

  lemma ExistingReturnNeverMatches(loanReturns: seq<LibrarianRequest>, loanId: Id)
    requires ReturnKeysAreStrings(loanReturns)
    ensures RequestIndexFor(loanReturns, Oid(loanId)) == None
  {
  }
}

/** Loan request and loan approval (src/routes/loan.py).

    Each handler is given twice: a function from the database before the
    call to its `Outcome` (the database after the call and the answer),
    whose ensures state what the route promises, and the handler itself,
    a method that performs the route's store calls in the route's order
    and is proved to produce exactly that outcome. */
module LoanRoutes {
  import opened Tables
  import opened Http
  import opened Models
  import opened Store

  /** `LoanUpdate(**loan)`: every field of the loan dict is given. */
  function WholeLoanUpdate(l: Loan): (u: LoanUpdate)
    ensures forall old_: Loan :: old_.id == l.id ==> ApplyLoanUpdate(old_, u) == l
  {
    LoanUpdate(Some(l.username), Some(l.bookTitle), Some(l.date), Some(l.returnDate), Some(l.status))
  }

  // ---- loan_approve_route ---------------------------------------------------

  /** What `PUT /loan/approve/{id}` does. It never looks at the loan's
      current status. */
  function LoanApproveEffect(db: Db, caller: Caller, id: Id, now: int): (o: Outcome<Loan>)
    // 403 for members, before any lookup or write
    ensures o.result == Err(Forbidden) <==> !IsElevated(caller.role)
    // no failing path writes anything
    ensures o.result.Err? ==> o.db == db
    ensures IsElevated(caller.role) ==>
      (o.result == Err(NotFound) <==> LoanIndex(db.loans, id).None?)
    ensures IsElevated(caller.role) && LoanIndex(db.loans, id).Some? ==>
      var title := db.loans[LoanIndex(db.loans, id).value].bookTitle;
      && (BookIndexByTitle(db.books, title).None? ==> o.result == Err(ServerError))
      && (BookIndexByTitle(db.books, title).Some? ==>
            (o.result == Err(BadRequest) <==> db.books[BookIndexByTitle(db.books, title).value].availableCount == 0))
    // success: the loan is APPROVED, dated now, due in 14 days, and the
    // book's availability is down by exactly one
    ensures o.result.Ok? ==>
      && LoanIndex(db.loans, id).Some?
      && var li := LoanIndex(db.loans, id).value;
      && var loan := o.result.value;
      && loan == db.loans[li].(status := LoanStatus.Approved, date := now, returnDate := now + LoanPeriod)
      && o.db.loans == db.loans[li := loan]
      && BookIndexByTitle(db.books, loan.bookTitle).Some?
      && StockMoved(db.books, o.db.books, BookIndexByTitle(db.books, loan.bookTitle).value, -1)
      && o.db.loanRenewals == db.loanRenewals && o.db.loanReturns == db.loanReturns && o.db.nextId == db.nextId
    // and an elevated approval of a stored loan whose book has a copy left succeeds
    ensures IsElevated(caller.role) && GetLoan(db.loans, id).Some? ==>
      var book := GetBookByTitle(db.books, GetLoan(db.loans, id).value.bookTitle);
      book.Some? && book.value.availableCount > 0 ==> o.result.Ok?
  {
    if !IsElevated(caller.role) then Outcome(db, Err(Forbidden))
    else match LoanIndex(db.loans, id)
      case None => Outcome(db, Err(NotFound))
      case Some(li) =>
        var loan := db.loans[li];
        match BookIndexByTitle(db.books, loan.bookTitle)
        case None => Outcome(db, Err(ServerError))
        case Some(bi) =>
          var book := db.books[bi];
          if book.availableCount == 0 then Outcome(db, Err(BadRequest))
          else
            var approved := loan.(status := LoanStatus.Approved, date := now, returnDate := now + LoanPeriod);
            Outcome(db.(books := db.books[bi := book.(availableCount := book.availableCount - 1)],
                        loans := db.loans[li := approved]),
                    Ok(approved))
  }

  /** The writes of a successful approval: the book's availability goes
      down by one, then the loan is rewritten whole. */
  method CommitApproval(lib: Library, li: nat, bi: nat, approved: Loan) returns (r: Option<Loan>)
    requires lib.Valid() && li < |lib.loans| && bi < |lib.books|
    requires lib.books[bi].availableCount > 0 && approved.id == lib.loans[li].id
    modifies lib
    ensures lib.Valid()
    ensures lib.Snapshot() == old(lib.Snapshot()).(
      books := old(lib.books)[bi := old(lib.books)[bi].(availableCount := old(lib.books)[bi].availableCount - 1)],
      loans := old(lib.loans)[li := approved])
    ensures r == Some(approved)
  {
    WriteAvailable(lib, bi, lib.books[bi].availableCount - 1);
    var updated := WriteLoan(lib, li, WholeLoanUpdate(approved));
    r := Some(updated);
  }

  /** `loan_approve_route`. Documents are looked up with the filters of
      `get_loan` and `get_book_by_title` and addressed by their position. */
  method LoanApproveRoute(lib: Library, caller: Caller, id: Id, now: int) returns (r: Result<Loan>)
    requires lib.Valid()
    modifies lib
    ensures lib.Valid()
    ensures lib.Snapshot() == LoanApproveEffect(old(lib.Snapshot()), caller, id, now).db
    ensures r == LoanApproveEffect(old(lib.Snapshot()), caller, id, now).result
  {
    if !IsElevated(caller.role) {
      return Err(Forbidden);
    }
    var li := LoanIndex(lib.loans, id);
    if li.None? {
      return Err(NotFound);
    }
    r := ApproveStoredLoan(lib, li.value, now);
  }

  /** The part of an approval past the loan lookup, for the loan stored at
      `li`: the book lookup, the stock check and the writes. */
  method ApproveStoredLoan(lib: Library, li: nat, now: int) returns (r: Result<Loan>)
    requires lib.Valid() && li < |lib.loans|
    modifies lib
    ensures lib.Valid()
    ensures
      var loan := old(lib.loans)[li];
      match BookIndexByTitle(old(lib.books), loan.bookTitle)
      case None => lib.Snapshot() == old(lib.Snapshot()) && r == Err(ServerError)
      case Some(bi) =>
        if old(lib.books)[bi].availableCount == 0 then lib.Snapshot() == old(lib.Snapshot()) && r == Err(BadRequest)
        else
          var approved := loan.(status := LoanStatus.Approved, date := now, returnDate := now + LoanPeriod);
          && lib.Snapshot() == old(lib.Snapshot()).(
               books := old(lib.books)[bi := old(lib.books)[bi].(availableCount := old(lib.books)[bi].availableCount - 1)],
               loans := old(lib.loans)[li := approved])
          && r == Ok(approved)
  {
    var loan := lib.loans[li];
    var bi := BookIndexByTitle(lib.books, loan.bookTitle);
    if bi.None? {
      // `book["available_count"]` on None raises
      return Err(ServerError);
    }
    if lib.books[bi.value].availableCount == 0 {
      return Err(BadRequest);
    }
    var approved := loan.(status := LoanStatus.Approved, date := now, returnDate := now + LoanPeriod);
    var updated := CommitApproval(lib, li, bi.value, approved);
    r := Ok(updated.value);
  }

  // ---- loan_create_route ----------------------------------------------------

  /** What `POST /loan/` does. A member's request is rewritten to the
      member's own name and PENDING; an elevated caller's is made APPROVED
      for the username it names (no account check takes effect: the
      "User not found" branch tests an un-awaited coroutine, which is
      always truthy). */
  function LoanCreateEffect(db: Db, caller: Caller, c: LoanCreate, now: int): (o: Outcome<Loan>)
    ensures o.result.Err? ==> o.db == db
    ensures o.result != Err(Forbidden) && o.result != Err(ServerError)
    // 400 when the first loan of this user for this title is not RETURNED,
    // checked before the book lookup
    ensures
      var username := if caller.role == Member then caller.username else c.username;
      var e := ExistingLoanIndex(db.loans, username, c.bookTitle);
      e.Some? && db.loans[e.value].status != LoanStatus.Returned ==> o.result == Err(BadRequest)
    // 404 only for a missing book, never for a missing user
    ensures o.result == Err(NotFound) ==> BookIndexByTitle(db.books, c.bookTitle).None?
    ensures o.result.Ok? ==>
      && o.result.value == Loan(db.nextId, o.result.value.username, c.bookTitle, o.result.value.status, now, now + LoanPeriod)
      && o.db.loans == db.loans + [o.result.value]
      && o.db.nextId == db.nextId + 1
      && o.db.loanRenewals == db.loanRenewals && o.db.loanReturns == db.loanReturns
    ensures caller.role == Member && o.result.Ok? ==>
      && o.result.value.username == caller.username
      && o.result.value.status == LoanStatus.Pending
      && o.db.books == db.books
    ensures IsElevated(caller.role) && o.result.Ok? ==>
      && o.result.value.username == c.username
      && o.result.value.status == LoanStatus.Approved
      && BookIndexByTitle(db.books, c.bookTitle).Some?
      && StockMoved(db.books, o.db.books, BookIndexByTitle(db.books, c.bookTitle).value, -1)
    ensures IsElevated(caller.role) && BookIndexByTitle(db.books, c.bookTitle).Some? ==>
      var bi := BookIndexByTitle(db.books, c.bookTitle).value;
      db.books[bi].availableCount == 0 ==> o.result == Err(BadRequest)
    // past the existing-loan check: 404 exactly for a missing book, and
    // success whenever the caller may take the book
    ensures
      var username := if caller.role == Member then caller.username else c.username;
      var e := ExistingLoan(db.loans, username, c.bookTitle);
      var book := GetBookByTitle(db.books, c.bookTitle);
      !(e.Some? && e.value.status != LoanStatus.Returned) ==>
        && (o.result == Err(NotFound) <==> book.None?)
        && (book.Some? && (caller.role == Member || book.value.availableCount > 0) ==> o.result.Ok?)
  {
    var username := if caller.role == Member then caller.username else c.username;
    var status := if caller.role == Member then LoanStatus.Pending else LoanStatus.Approved;
    var e := ExistingLoanIndex(db.loans, username, c.bookTitle);
    if e.Some? && db.loans[e.value].status != LoanStatus.Returned then Outcome(db, Err(BadRequest))
    else match BookIndexByTitle(db.books, c.bookTitle)
      case None => Outcome(db, Err(NotFound))
      case Some(bi) =>
        var book := db.books[bi];
        if IsElevated(caller.role) && book.availableCount == 0 then Outcome(db, Err(BadRequest))
        else
          var books := if IsElevated(caller.role)
                       then db.books[bi := book.(availableCount := book.availableCount - 1)]
                       else db.books;
          var loan := Loan(db.nextId, username, c.bookTitle, status, now, now + LoanPeriod);
          Outcome(db.(books := books, loans := db.loans + [loan], nextId := db.nextId + 1), Ok(loan))
  }

  /** The writes of a successful loan request: for an elevated caller the
      book's availability goes down by one (`take`), then the loan is stored. */
  method CommitCreation(lib: Library, loan: LoanCreate, now: int, bi: nat, take: bool) returns (created: Loan)
    requires lib.Valid() && bi < |lib.books|
    requires take ==> lib.books[bi].availableCount > 0
    modifies lib
    ensures lib.Valid()
    ensures created == Loan(old(lib.nextId), loan.username, loan.bookTitle, loan.status, now, now + LoanPeriod)
    ensures lib.Snapshot() == old(lib.Snapshot()).(
      books := if take then old(lib.books)[bi := old(lib.books)[bi].(availableCount := old(lib.books)[bi].availableCount - 1)]
               else old(lib.books),
      loans := old(lib.loans) + [created],
      nextId := old(lib.nextId) + 1)
  {
    if take {
      WriteAvailable(lib, bi, lib.books[bi].availableCount - 1);
    }
    created := lib.CreateLoan(loan, now);
  }

  /** `loan_create_route`. The existing-loan and book lookups use the
      filters of `existing_loan` and `get_book_by_title`. */
  method LoanCreateRoute(lib: Library, caller: Caller, c: LoanCreate, now: int) returns (r: Result<Loan>)
    requires lib.Valid()
    modifies lib
    ensures lib.Valid()
    ensures lib.Snapshot() == LoanCreateEffect(old(lib.Snapshot()), caller, c, now).db
    ensures r == LoanCreateEffect(old(lib.Snapshot()), caller, c, now).result
  {
    var loan := c;
    if caller.role == Member {
      loan := loan.(username := caller.username, status := LoanStatus.Pending);
    } else {
      loan := loan.(status := LoanStatus.Approved);
      // the account lookup here is never awaited, so its 404 is never raised
    }
    var existing := ExistingLoanIndex(lib.loans, loan.username, loan.bookTitle);
    if existing.Some? && lib.loans[existing.value].status != LoanStatus.Returned {
      return Err(BadRequest);
    }
    var book := BookIndexByTitle(lib.books, loan.bookTitle);
    if book.None? {
      return Err(NotFound);
    }
    var bi := book.value;
    if IsElevated(caller.role) && lib.books[bi].availableCount == 0 {
      return Err(BadRequest);
    }
    var created := CommitCreation(lib, loan, now, bi, IsElevated(caller.role));
    r := Ok(created);
  }
}

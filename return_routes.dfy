/** Loan return request and return approval (src/routes/loan_return.py).
    Same shape as the loan routes: an effect function states what the
    route does to the database and answers, and the route method performs
    the store calls and is proved to agree with it. */
module ReturnRoutes {
  import opened Tables
  import opened Http
  import opened Models
  import opened Store

  // ---- loan_return_create_route ----------------------------------------------

  /** What `POST /loan_return/` does for a request naming loan `loanId`.
      The loan is marked RETURNED before the caller is checked, so that
      write survives the member's 403 and the 500 of a missing book. */
  function ReturnCreateEffect(db: Db, caller: Caller, loanId: Id, now: int): (o: Outcome<LibrarianRequest>)
    // the duplicate check looks for the ObjectId form of the loan id
    ensures RequestIndexFor(db.loanReturns, Oid(loanId)).Some? ==> o == Outcome(db, Err(BadRequest))
    ensures o.result != Err(NotFound)
    // a missing loan is subscripted as None: 500, and nothing was written
    ensures RequestIndexFor(db.loanReturns, Oid(loanId)).None? && LoanIndex(db.loans, loanId).None? ==>
      o == Outcome(db, Err(ServerError))
    ensures o.result == Err(Forbidden) ==>
      && caller.role == Member
      && LoanIndex(db.loans, loanId).Some?
      && db.loans[LoanIndex(db.loans, loanId).value].username != caller.username
    // every outcome past the duplicate check leaves the loan RETURNED
    ensures RequestIndexFor(db.loanReturns, Oid(loanId)).None? && LoanIndex(db.loans, loanId).Some? ==>
      var li := LoanIndex(db.loans, loanId).value;
      o.db.loans == db.loans[li := db.loans[li].(status := Returned)]
    ensures o.result.Ok? ==>
      && LoanIndex(db.loans, loanId).Some?
      && o.result.value == LibrarianRequest(db.nextId, Str(loanId),
                                           if IsElevated(caller.role) then LibrarianStatus.Approved else LibrarianStatus.Pending, now)
      && o.db.loanReturns == db.loanReturns + [o.result.value]
      && o.db.nextId == db.nextId + 1
      && o.db.loanRenewals == db.loanRenewals
    ensures caller.role == Member ==> o.db.books == db.books
    // an elevated caller's return puts the copy back on the shelf at once
    ensures IsElevated(caller.role) && o.result.Ok? ==>
      var title := db.loans[LoanIndex(db.loans, loanId).value].bookTitle;
      && BookIndexByTitle(db.books, title).Some?
      && StockMoved(db.books, o.db.books, BookIndexByTitle(db.books, title).value, 1)
    ensures o.result == Err(BadRequest) <==> ExistingLoanReturn(db.loanReturns, loanId).Some?
    // a failure writes at most the loan's RETURNED status
    ensures o.result.Err? ==> o.db.books == db.books && o.db.loanReturns == db.loanReturns && o.db.nextId == db.nextId
    ensures o.db.loanRenewals == db.loanRenewals
    // past the duplicate check, for a stored loan: a member gets 403 exactly
    // on another user's loan and succeeds on their own; an elevated caller
    // gets 500 exactly when the loan's book is missing and succeeds otherwise
    ensures ExistingLoanReturn(db.loanReturns, loanId).None? && GetLoan(db.loans, loanId).Some? ==>
      var loan := GetLoan(db.loans, loanId).value;
      var book := GetBookByTitle(db.books, loan.bookTitle);
      && (caller.role == Member ==> (o.result == Err(Forbidden) <==> loan.username != caller.username))
      && (caller.role == Member && loan.username == caller.username ==> o.result.Ok?)
      && (IsElevated(caller.role) ==> (o.result == Err(ServerError) <==> book.None?))
      && (IsElevated(caller.role) && book.Some? ==> o.result.Ok?)
  {
    if RequestIndexFor(db.loanReturns, Oid(loanId)).Some? then Outcome(db, Err(BadRequest))
    else match LoanIndex(db.loans, loanId)
      case None => Outcome(db, Err(ServerError))
      case Some(li) =>
        var loan := db.loans[li].(status := Returned);
        var db1 := db.(loans := db.loans[li := loan]);
        if IsElevated(caller.role) then
          match BookIndexByTitle(db.books, loan.bookTitle)
          case None => Outcome(db1, Err(ServerError))
          case Some(bi) =>
            var book := db.books[bi];
            var rec := LibrarianRequest(db.nextId, Str(loanId), LibrarianStatus.Approved, now);
            Outcome(db1.(books := db.books[bi := book.(availableCount := book.availableCount + 1)],
                         loanReturns := db.loanReturns + [rec],
                         nextId := db.nextId + 1),
                    Ok(rec))
        else if loan.username != caller.username then Outcome(db1, Err(Forbidden))
        else
          var rec := LibrarianRequest(db.nextId, Str(loanId), LibrarianStatus.Pending, now);
          Outcome(db1.(loanReturns := db.loanReturns + [rec], nextId := db.nextId + 1), Ok(rec))
  }

  /** The writes of a return request past its loan update: for an elevated
      caller the book goes up by one (`give`), then the request is stored. */
  method CommitReturn(lib: Library, loanId: Id, bi: nat, give: bool, st: LibrarianStatus, now: int)
    returns (created: LibrarianRequest)
    requires lib.Valid() && (give ==> bi < |lib.books|)
    modifies lib
    ensures lib.Valid()
    ensures created == LibrarianRequest(old(lib.nextId), Str(loanId), st, now)
    ensures lib.Snapshot() == old(lib.Snapshot()).(
      books := if give then old(lib.books)[bi := old(lib.books)[bi].(availableCount := old(lib.books)[bi].availableCount + 1)]
               else old(lib.books),
      loanReturns := old(lib.loanReturns) + [created],
      nextId := old(lib.nextId) + 1)
  {
    if give {
      WriteAvailable(lib, bi, lib.books[bi].availableCount + 1);
    }
    created := lib.CreateLoanReturn(loanId, st, now);
  }

  /** `loan_return_create_route`. The existing request and the book are
      looked up with the filters of `existing_loan_return` and
      `get_book_by_title`; the loan is written through `update_loan`. */
  method ReturnCreateRoute(lib: Library, caller: Caller, loanId: Id, now: int) returns (r: Result<LibrarianRequest>)
    requires lib.Valid()
    modifies lib
    ensures lib.Valid()
    ensures lib.Snapshot() == ReturnCreateEffect(old(lib.Snapshot()), caller, loanId, now).db
    ensures r == ReturnCreateEffect(old(lib.Snapshot()), caller, loanId, now).result
  {
    var existing := RequestIndexFor(lib.loanReturns, Oid(loanId));
    if existing.Some? {
      return Err(BadRequest);
    }
    var li := LoanIndex(lib.loans, loanId);
    if li.None? {
      // `update_loan` writes nothing and answers None, which is then subscripted
      return Err(ServerError);
    }
    r := ReturnStoredLoan(lib, li.value, caller, now);
  }

  /** The part of a return request past the duplicate check, for the loan
      stored at `li`: the RETURNED write, then the caller's branch. */
  method ReturnStoredLoan(lib: Library, li: nat, caller: Caller, now: int) returns (r: Result<LibrarianRequest>)
    requires lib.Valid() && li < |lib.loans|
    modifies lib
    ensures lib.Valid()
    ensures
      var loan := old(lib.loans)[li].(status := Returned);
      var db1 := old(lib.Snapshot()).(loans := old(lib.loans)[li := loan]);
      FiledReturn(db1, loan, caller, lib.Snapshot(), r, now)
  {
    var loan := WriteLoan(lib, li, DefaultLoanUpdate().(status := Some(Returned)));
    r := FileReturn(lib, loan, caller, now);
  }

  /** How the caller's branch of a return request leaves database `db1`
      (where the loan is already RETURNED) as `after`, answering `r`. */
  ghost predicate FiledReturn(db1: Db, loan: Loan, caller: Caller, after: Db, r: Result<LibrarianRequest>, now: int) {
    var rec := LibrarianRequest(db1.nextId, Str(loan.id),
                                if IsElevated(caller.role) then LibrarianStatus.Approved else LibrarianStatus.Pending, now);
    if IsElevated(caller.role) then
      match BookIndexByTitle(db1.books, loan.bookTitle)
      case None => after == db1 && r == Err(ServerError)
      case Some(bi) =>
        && after == db1.(books := db1.books[bi := db1.books[bi].(availableCount := db1.books[bi].availableCount + 1)],
                         loanReturns := db1.loanReturns + [rec],
                         nextId := db1.nextId + 1)
        && r == Ok(rec)
    else if loan.username != caller.username then after == db1 && r == Err(Forbidden)
    else after == db1.(loanReturns := db1.loanReturns + [rec], nextId := db1.nextId + 1) && r == Ok(rec)
  }

  /** The caller's branch of a return request, once the loan is RETURNED. */
  method FileReturn(lib: Library, loan: Loan, caller: Caller, now: int) returns (r: Result<LibrarianRequest>)
    requires lib.Valid()
    modifies lib
    ensures lib.Valid()
    ensures FiledReturn(old(lib.Snapshot()), loan, caller, lib.Snapshot(), r, now)
  {
    var bi := 0;
    var st := LibrarianStatus.Pending;
    if IsElevated(caller.role) {
      var book := BookIndexByTitle(lib.books, loan.bookTitle);
      if book.None? {
        return Err(ServerError);
      }
      bi, st := book.value, LibrarianStatus.Approved;
    } else if loan.username != caller.username {
      return Err(Forbidden);
    }
    var created := CommitReturn(lib, loan.id, bi, IsElevated(caller.role), st, now);
    r := Ok(created);
  }

  // ---- loan_return_approve_route ---------------------------------------------

  /** What `POST /loan_return/approve/{id}` does. The request is marked
      APPROVED before its loan and book are read; when either is gone that
      write stays and the route fails with 500. The book's availability
      goes up without any comparison with its total. */
  function ReturnApproveEffect(db: Db, caller: Caller, id: Id): (o: Outcome<LibrarianRequest>)
    ensures o.result == Err(Forbidden) <==> !IsElevated(caller.role)
    ensures IsElevated(caller.role) ==> (o.result == Err(NotFound) <==> RequestIndex(db.loanReturns, id).None?)
    // a request is approved at most once
    ensures IsElevated(caller.role) && RequestIndex(db.loanReturns, id).Some? ==>
      (o.result == Err(BadRequest) <==> db.loanReturns[RequestIndex(db.loanReturns, id).value].status == LibrarianStatus.Approved)
    ensures o.result.Err? && o.result != Err(ServerError) ==> o.db == db
    ensures o.result.Ok? || o.result == Err(ServerError) ==>
      && RequestIndex(db.loanReturns, id).Some?
      && var ri := RequestIndex(db.loanReturns, id).value;
      && db.loanReturns[ri].status == LibrarianStatus.Pending
      && o.db.loanReturns == db.loanReturns[ri := db.loanReturns[ri].(status := LibrarianStatus.Approved)]
      && o.db.loans == db.loans && o.db.loanRenewals == db.loanRenewals && o.db.nextId == db.nextId
    ensures o.result == Err(ServerError) ==> o.db.books == db.books
    ensures o.result.Ok? ==>
      && var ri := RequestIndex(db.loanReturns, id).value;
      && o.result.value == db.loanReturns[ri].(status := LibrarianStatus.Approved)
      && LoanIndex(db.loans, db.loanReturns[ri].loanId.id).Some?
      && var loan := db.loans[LoanIndex(db.loans, db.loanReturns[ri].loanId.id).value];
      && BookIndexByTitle(db.books, loan.bookTitle).Some?
      && StockMoved(db.books, o.db.books, BookIndexByTitle(db.books, loan.bookTitle).value, 1)
    // for a PENDING request: 500 exactly when its loan or that loan's book
    // is missing, success otherwise
    ensures
      var rec := GetLoanReturn(db.loanReturns, id);
      IsElevated(caller.role) && rec.Some? && rec.value.status == LibrarianStatus.Pending ==>
      var loan := GetLoan(db.loans, GetLoanReturn(db.loanReturns, id).value.loanId.id);
      && (loan.Some? && GetBookByTitle(db.books, loan.value.bookTitle).Some? ==> o.result.Ok?)
      && (loan.None? || GetBookByTitle(db.books, loan.value.bookTitle).None? ==> o.result == Err(ServerError))
  {
    if !IsElevated(caller.role) then Outcome(db, Err(Forbidden))
    else match RequestIndex(db.loanReturns, id)
      case None => Outcome(db, Err(NotFound))
      case Some(ri) =>
        var rec := db.loanReturns[ri];
        if rec.status == LibrarianStatus.Approved then Outcome(db, Err(BadRequest))
        else
          var approved := rec.(status := LibrarianStatus.Approved);
          var db1 := db.(loanReturns := db.loanReturns[ri := approved]);
          match LoanIndex(db.loans, rec.loanId.id)
          case None => Outcome(db1, Err(ServerError))
          case Some(li) =>
            match BookIndexByTitle(db.books, db.loans[li].bookTitle)
            case None => Outcome(db1, Err(ServerError))
            case Some(bi) =>
              var book := db.books[bi];
              Outcome(db1.(books := db.books[bi := book.(availableCount := book.availableCount + 1)]), Ok(approved))
  }

  /** The writes of an accepted return approval, from `update_loan_return`
      to the re-read of the request. */
  method CommitReturnApproval(lib: Library, ri: nat) returns (r: Result<LibrarianRequest>)
    requires lib.Valid() && ri < |lib.loanReturns|
    modifies lib
    ensures lib.Valid()
    ensures
      var rec := old(lib.loanReturns)[ri];
      var approved := rec.(status := LibrarianStatus.Approved);
      var db1 := old(lib.Snapshot()).(loanReturns := old(lib.loanReturns)[ri := approved]);
      match LoanIndex(old(lib.loans), rec.loanId.id)
      case None => lib.Snapshot() == db1 && r == Err(ServerError)
      case Some(li) =>
        match BookIndexByTitle(old(lib.books), old(lib.loans)[li].bookTitle)
        case None => lib.Snapshot() == db1 && r == Err(ServerError)
        case Some(bi) =>
          var book := old(lib.books)[bi];
          && lib.Snapshot() == db1.(books := old(lib.books)[bi := book.(availableCount := book.availableCount + 1)])
          && r == Ok(approved)
  {
    var loanId := lib.loanReturns[ri].loanId.id;
    WriteReturnStatus(lib, ri, LibrarianStatus.Approved);
    r := GiveBack(lib, loanId, ri);
  }

  /** The rest of a return approval once the request is marked: the loan
      and its book are read, the book's availability goes up by one, and
      the request (stored at `ri`) is read again as the answer. */
  method GiveBack(lib: Library, loanId: Id, ri: nat) returns (r: Result<LibrarianRequest>)
    requires lib.Valid() && ri < |lib.loanReturns|
    modifies lib
    ensures lib.Valid()
    ensures lib.loans == old(lib.loans) && lib.loanRenewals == old(lib.loanRenewals)
    ensures lib.loanReturns == old(lib.loanReturns) && lib.nextId == old(lib.nextId)
    ensures
      match LoanIndex(old(lib.loans), loanId)
      case None => lib.books == old(lib.books) && r == Err(ServerError)
      case Some(li) =>
        match BookIndexByTitle(old(lib.books), old(lib.loans)[li].bookTitle)
        case None => lib.books == old(lib.books) && r == Err(ServerError)
        case Some(bi) =>
          && lib.books == old(lib.books)[bi := old(lib.books)[bi].(availableCount := old(lib.books)[bi].availableCount + 1)]
          && r == Ok(old(lib.loanReturns)[ri])
  {
    var li := LoanIndex(lib.loans, loanId);
    if li.None? {
      // `loan["book_title"]` on None raises
      return Err(ServerError);
    }
    var bi := BookIndexByTitle(lib.books, lib.loans[li.value].bookTitle);
    if bi.None? {
      // `book["_id"]` on None raises
      return Err(ServerError);
    }
    WriteAvailable(lib, bi.value, lib.books[bi.value].availableCount + 1);
    var reread := RereadReturn(lib, ri);
    r := Ok(reread);
  }

  /** `get_loan_return(id)` on a request known to be stored at `ri`. */
  method RereadReturn(lib: Library, ri: nat) returns (rec: LibrarianRequest)
    requires lib.Valid() && ri < |lib.loanReturns|
    ensures rec == lib.loanReturns[ri]
  {
    RequestIndexOf(lib.loanReturns, lib.nextId, ri);
    var found := GetLoanReturn(lib.loanReturns, lib.loanReturns[ri].id);
    rec := found.value;
  }

  /** `loan_return_approve_route`. */
  method ReturnApproveRoute(lib: Library, caller: Caller, id: Id) returns (r: Result<LibrarianRequest>)
    requires lib.Valid()
    modifies lib
    ensures lib.Valid()
    ensures lib.Snapshot() == ReturnApproveEffect(old(lib.Snapshot()), caller, id).db
    ensures r == ReturnApproveEffect(old(lib.Snapshot()), caller, id).result
  {
    if !IsElevated(caller.role) {
      return Err(Forbidden);
    }
    var ri := RequestIndex(lib.loanReturns, id);
    if ri.None? {
      return Err(NotFound);
    }
    if lib.loanReturns[ri.value].status == LibrarianStatus.Approved {
      return Err(BadRequest);
    }
    r := CommitReturnApproval(lib, ri.value);
  }
}

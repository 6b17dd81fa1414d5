/** Loan renewal request and renewal approval (src/routes/loan_renewal.py).
    Same shape as the loan routes: an effect function states what the
    route does to the database and answers, and the route method performs
    the store calls and is proved to agree with it. */
module RenewalRoutes {
  import opened Tables
  import opened Http
  import opened Models
  import opened Store

  // ---- loan_renewal_create_route ---------------------------------------------

  /** The loan a renewal request leaves behind. An elevated caller's request
      issues `LoanUpdate(status=APPROVED)` and then `LoanUpdate(return_date=…)`,
      whose omitted status defaults to PENDING, so the loan ends PENDING with
      its due date moved 14 days on. A member's request marks it RENEW_PENDING. */
  function Renewed(loan: Loan, elevated: bool): (r: Loan)
    ensures r.id == loan.id && r.username == loan.username && r.bookTitle == loan.bookTitle && r.date == loan.date
    ensures elevated ==> r.status == LoanStatus.Pending && r.returnDate == loan.returnDate + LoanPeriod
    ensures !elevated ==> r.status == RenewPending && r.returnDate == loan.returnDate
  {
    if elevated then ApplyLoanUpdate(ApplyLoanUpdate(loan, DefaultLoanUpdate().(status := Some(LoanStatus.Approved))),
                                     DefaultLoanUpdate().(returnDate := Some(loan.returnDate + LoanPeriod)))
    else ApplyLoanUpdate(loan, DefaultLoanUpdate().(status := Some(RenewPending)))
  }

  /** What `POST /loan_renewal/` does for a request naming loan `loanId`. */
  function RenewalCreateEffect(db: Db, caller: Caller, loanId: Id, now: int): (o: Outcome<LibrarianRequest>)
    ensures o.result.Err? ==> o.db == db
    ensures o.result != Err(ServerError)
    ensures o.result == Err(NotFound) <==> LoanIndex(db.loans, loanId).None?
    // a member may only renew an APPROVED loan of their own
    ensures o.result == Err(Forbidden) <==>
      && LoanIndex(db.loans, loanId).Some?
      && caller.role == Member
      && db.loans[LoanIndex(db.loans, loanId).value].username != caller.username
    ensures caller.role == Member && LoanIndex(db.loans, loanId).Some? ==>
      var loan := db.loans[LoanIndex(db.loans, loanId).value];
      loan.username == caller.username && loan.status != LoanStatus.Approved ==> o.result == Err(BadRequest)
    // at most one renewal request per loan
    ensures RequestIndexFor(db.loanRenewals, Str(loanId)).Some? ==> o.result.Err?
    ensures ExistingLoanRenewal(db.loanRenewals, loanId).Some? && o.result != Err(NotFound) && o.result != Err(Forbidden) ==>
      o.result == Err(BadRequest)
    // a request past all three checks succeeds
    ensures GetLoan(db.loans, loanId).Some? ==>
      var loan := GetLoan(db.loans, loanId).value;
      var refused := caller.role == Member && (loan.username != caller.username || loan.status != LoanStatus.Approved);
      !refused && ExistingLoanRenewal(db.loanRenewals, loanId).None? ==> o.result.Ok?
    ensures o.result.Ok? ==>
      && LoanIndex(db.loans, loanId).Some?
      && var li := LoanIndex(db.loans, loanId).value;
      && var rec := o.result.value;
      && rec == LibrarianRequest(db.nextId, Str(loanId),
                                 if IsElevated(caller.role) then LibrarianStatus.Approved else LibrarianStatus.Pending, now)
      && o.db == db.(loans := db.loans[li := Renewed(db.loans[li], IsElevated(caller.role))],
                     loanRenewals := db.loanRenewals + [rec],
                     nextId := db.nextId + 1)
  {
    match LoanIndex(db.loans, loanId)
    case None => Outcome(db, Err(NotFound))
    case Some(li) =>
      var loan := db.loans[li];
      if caller.role == Member && loan.username != caller.username then Outcome(db, Err(Forbidden))
      else if caller.role == Member && loan.status != LoanStatus.Approved then Outcome(db, Err(BadRequest))
      else if RequestIndexFor(db.loanRenewals, Str(loanId)).Some? then Outcome(db, Err(BadRequest))
      else
        var elevated := IsElevated(caller.role);
        var st := if elevated then LibrarianStatus.Approved else LibrarianStatus.Pending;
        var rec := LibrarianRequest(db.nextId, Str(loanId), st, now);
        Outcome(db.(loans := db.loans[li := Renewed(loan, elevated)],
                    loanRenewals := db.loanRenewals + [rec],
                    nextId := db.nextId + 1),
                Ok(rec))
  }

  /** The loan updates of an accepted renewal request, in the order the
      route issues them. */
  method RenewLoan(lib: Library, li: nat, elevated: bool)
    requires lib.Valid() && li < |lib.loans|
    modifies lib
    ensures lib.Valid()
    ensures lib.Snapshot() == old(lib.Snapshot()).(loans := old(lib.loans)[li := Renewed(old(lib.loans)[li], elevated)])
  {
    var loan := lib.loans[li];
    if elevated {
      var approved := WriteLoan(lib, li, DefaultLoanUpdate().(status := Some(LoanStatus.Approved)));
      var extended := WriteLoan(lib, li, DefaultLoanUpdate().(returnDate := Some(loan.returnDate + LoanPeriod)));
    } else {
      var marked := WriteLoan(lib, li, DefaultLoanUpdate().(status := Some(RenewPending)));
    }
  }

  /** The writes of an accepted renewal request: the loan updates of the
      caller's branch, then the stored request. */
  method CommitRenewal(lib: Library, li: nat, elevated: bool, now: int) returns (created: LibrarianRequest)
    requires lib.Valid() && li < |lib.loans|
    modifies lib
    ensures lib.Valid()
    ensures created == LibrarianRequest(old(lib.nextId), Str(old(lib.loans)[li].id),
                                        if elevated then LibrarianStatus.Approved else LibrarianStatus.Pending, now)
    ensures lib.Snapshot() == old(lib.Snapshot()).(
      loans := old(lib.loans)[li := Renewed(old(lib.loans)[li], elevated)],
      loanRenewals := old(lib.loanRenewals) + [created],
      nextId := old(lib.nextId) + 1)
  {
    var loan := lib.loans[li];
    RenewLoan(lib, li, elevated);
    var st := if elevated then LibrarianStatus.Approved else LibrarianStatus.Pending;
    created := lib.CreateLoanRenewal(loan.id, st, now);
  }

  /** `loan_renewal_create_route`. The loan and the existing request are
      looked up with the filters of `get_loan` and `existing_loan_renewal`. */
  method RenewalCreateRoute(lib: Library, caller: Caller, loanId: Id, now: int) returns (r: Result<LibrarianRequest>)
    requires lib.Valid()
    modifies lib
    ensures lib.Valid()
    ensures lib.Snapshot() == RenewalCreateEffect(old(lib.Snapshot()), caller, loanId, now).db
    ensures r == RenewalCreateEffect(old(lib.Snapshot()), caller, loanId, now).result
  {
    var li := LoanIndex(lib.loans, loanId);
    if li.None? {
      return Err(NotFound);
    }
    var loan := lib.loans[li.value];
    if caller.role == Member {
      if loan.username != caller.username {
        return Err(Forbidden);
      }
      if loan.status != LoanStatus.Approved {
        return Err(BadRequest);
      }
    }
    var existing := RequestIndexFor(lib.loanRenewals, Str(loanId));
    if existing.Some? {
      return Err(BadRequest);
    }
    var created := CommitRenewal(lib, li.value, IsElevated(caller.role), now);
    r := Ok(created);
  }

  // ---- loan_renewal_approve_route --------------------------------------------

  /** What `POST /loan_renewal/approve/{id}` does. The request is marked
      APPROVED before its loan is read; when the loan is gone that write
      stays and the route fails with 500. */
  function RenewalApproveEffect(db: Db, caller: Caller, id: Id): (o: Outcome<LibrarianRequest>)
    ensures o.result == Err(Forbidden) <==> !IsElevated(caller.role)
    ensures IsElevated(caller.role) ==> (o.result == Err(NotFound) <==> RequestIndex(db.loanRenewals, id).None?)
    // a request is approved at most once
    ensures IsElevated(caller.role) && RequestIndex(db.loanRenewals, id).Some? ==>
      (o.result == Err(BadRequest) <==> db.loanRenewals[RequestIndex(db.loanRenewals, id).value].status == LibrarianStatus.Approved)
    ensures o.result.Err? && o.result != Err(ServerError) ==> o.db == db
    ensures o.result.Ok? || o.result == Err(ServerError) ==>
      && RequestIndex(db.loanRenewals, id).Some?
      && var ri := RequestIndex(db.loanRenewals, id).value;
      && db.loanRenewals[ri].status == LibrarianStatus.Pending
      && o.db.loanRenewals == db.loanRenewals[ri := db.loanRenewals[ri].(status := LibrarianStatus.Approved)]
      && o.db.books == db.books && o.db.loanReturns == db.loanReturns && o.db.nextId == db.nextId
      && (o.result == Err(ServerError) <==> LoanIndex(db.loans, db.loanRenewals[ri].loanId.id).None?)
    // success: the request reads APPROVED, and its loan is APPROVED again
    // and due 14 days later
    ensures o.result.Ok? ==>
      && var ri := RequestIndex(db.loanRenewals, id).value;
      && var li := LoanIndex(db.loans, db.loanRenewals[ri].loanId.id).value;
      && o.result.value == db.loanRenewals[ri].(status := LibrarianStatus.Approved)
      && o.db.loans == db.loans[li := db.loans[li].(status := LoanStatus.Approved, returnDate := db.loans[li].returnDate + LoanPeriod)]
    ensures o.result == Err(ServerError) ==> o.db.loans == db.loans
  {
    if !IsElevated(caller.role) then Outcome(db, Err(Forbidden))
    else match RequestIndex(db.loanRenewals, id)
      case None => Outcome(db, Err(NotFound))
      case Some(ri) =>
        var rec := db.loanRenewals[ri];
        if rec.status == LibrarianStatus.Approved then Outcome(db, Err(BadRequest))
        else
          var approved := rec.(status := LibrarianStatus.Approved);
          var db1 := db.(loanRenewals := db.loanRenewals[ri := approved]);
          match LoanIndex(db.loans, rec.loanId.id)
          case None => Outcome(db1, Err(ServerError))
          case Some(li) =>
            var loan := db.loans[li];
            Outcome(db1.(loans := db.loans[li := loan.(status := LoanStatus.Approved, returnDate := loan.returnDate + LoanPeriod)]),
                    Ok(approved))
  }

  /** The writes of an accepted renewal approval, from `update_loan_renewal`
      to the re-read of the request. */
  method CommitRenewalApproval(lib: Library, ri: nat) returns (r: Result<LibrarianRequest>)
    requires lib.Valid() && ri < |lib.loanRenewals|
    modifies lib
    ensures lib.Valid()
    ensures
      var rec := old(lib.loanRenewals)[ri];
      var approved := rec.(status := LibrarianStatus.Approved);
      var db1 := old(lib.Snapshot()).(loanRenewals := old(lib.loanRenewals)[ri := approved]);
      match LoanIndex(old(lib.loans), rec.loanId.id)
      case None => lib.Snapshot() == db1 && r == Err(ServerError)
      case Some(li) =>
        var loan := old(lib.loans)[li];
        && lib.Snapshot() == db1.(loans := old(lib.loans)[li := loan.(status := LoanStatus.Approved, returnDate := loan.returnDate + LoanPeriod)])
        && r == Ok(approved)
  {
    var rec := lib.loanRenewals[ri];
    WriteRenewalStatus(lib, ri, LibrarianStatus.Approved);
    var li := LoanIndex(lib.loans, rec.loanId.id);
    if li.None? {
      // `loan["return_date"]` on None raises
      return Err(ServerError);
    }
    var loan := lib.loans[li.value];
    var updated := WriteLoan(lib, li.value, LoanUpdate(None, None, None, Some(loan.returnDate + LoanPeriod), Some(LoanStatus.Approved)));
    var reread := RereadRenewal(lib, ri);
    r := Ok(reread);
  }

  /** `get_loan_renewal(id)` on a request known to be stored at `ri`. */
  method RereadRenewal(lib: Library, ri: nat) returns (rec: LibrarianRequest)
    requires lib.Valid() && ri < |lib.loanRenewals|
    ensures rec == lib.loanRenewals[ri]
  {
    RequestIndexOf(lib.loanRenewals, lib.nextId, ri);
    var found := GetLoanRenewal(lib.loanRenewals, lib.loanRenewals[ri].id);
    rec := found.value;
  }

  /** `loan_renewal_approve_route`. */
  method RenewalApproveRoute(lib: Library, caller: Caller, id: Id) returns (r: Result<LibrarianRequest>)
    requires lib.Valid()
    modifies lib
    ensures lib.Valid()
    ensures lib.Snapshot() == RenewalApproveEffect(old(lib.Snapshot()), caller, id).db
    ensures r == RenewalApproveEffect(old(lib.Snapshot()), caller, id).result
  {
    if !IsElevated(caller.role) {
      return Err(Forbidden);
    }
    var ri := RequestIndex(lib.loanRenewals, id);
    if ri.None? {
      return Err(NotFound);
    }
    if lib.loanRenewals[ri.value].status == LibrarianStatus.Approved {
      return Err(BadRequest);
    }
    r := CommitRenewalApproval(lib, ri.value);
  }
}

/** Properties of the loan lifecycle that span several requests: what a
    sequence of route calls does to the stock of a book and to the requests
    stored for one loan. Each lemma is about the effect functions of the
    routes, which the route methods are proved to follow exactly. */
module Lifecycle {
  import opened Tables
  import opened Http
  import opened Models
  import opened Store
  import opened LoanRoutes
  import opened RenewalRoutes
  import opened ReturnRoutes

  // ---- lookups that survive a write ------------------------------------------

  lemma LoanIndexStable(a: seq<Loan>, b: seq<Loan>, id: Id)
    requires |a| == |b| && forall j :: 0 <= j < |a| ==> a[j].id == b[j].id
    ensures LoanIndex(a, id) == LoanIndex(b, id)
  {
    FindFirstAgree(a, (l: Loan) => l.id == id, b, (l: Loan) => l.id == id);
  }

  lemma TitleIndexStable(a: seq<Book>, b: seq<Book>, title: string)
    requires |a| == |b| && forall j :: 0 <= j < |a| ==> a[j].title == b[j].title
    ensures BookIndexByTitle(a, title) == BookIndexByTitle(b, title)
  {
    FindFirstAgree(a, (x: Book) => x.title == title, b, (x: Book) => x.title == title);
  }

  lemma RequestIndexStable(a: seq<LibrarianRequest>, b: seq<LibrarianRequest>, id: Id)
    requires |a| == |b| && forall j :: 0 <= j < |a| ==> a[j].id == b[j].id
    ensures RequestIndex(a, id) == RequestIndex(b, id)
  {
    FindFirstAgree(a, (q: LibrarianRequest) => q.id == id, b, (q: LibrarianRequest) => q.id == id);
  }

  /** A loan appended with a fresh id is found at the end. */
  lemma NewLoanFound(loans: seq<Loan>, bound: nat, loan: Loan)
    requires LoansKeyed(loans, bound) && loan.id == bound
    ensures LoanIndex(loans + [loan], bound) == Some(|loans|)
  {
    FindFirstOnly(loans + [loan], (l: Loan) => l.id == bound, |loans|);
  }

  // ---- stock --------------------------------------------------------------------

  /** Approval does not look at the loan's status: approving the same loan
      twice succeeds twice and takes two copies off the shelf. */
  lemma ApprovingTwiceTakesTwo(db: Db, caller: Caller, id: Id, t1: int, t2: int)
    requires IsElevated(caller.role) && LoanIndex(db.loans, id).Some?
    requires BookIndexByTitle(db.books, db.loans[LoanIndex(db.loans, id).value].bookTitle).Some?
    requires db.books[BookIndexByTitle(db.books, db.loans[LoanIndex(db.loans, id).value].bookTitle).value].availableCount >= 2
    ensures
      var bi := BookIndexByTitle(db.books, db.loans[LoanIndex(db.loans, id).value].bookTitle).value;
      var o1 := LoanApproveEffect(db, caller, id, t1);
      var o2 := LoanApproveEffect(o1.db, caller, id, t2);
      && o1.result.Ok? && o2.result.Ok?
      && o2.db.books[bi].availableCount == db.books[bi].availableCount - 2
  {
    var o1 := LoanApproveEffect(db, caller, id, t1);
    var li := LoanIndex(db.loans, id).value;
    var title := db.loans[li].bookTitle;
    LoanIndexStable(db.loans, o1.db.loans, id);
    TitleIndexStable(db.books, o1.db.books, title);
  }

  /** An elevated loan followed by the return of that loan puts the book's
      stock back where it was. */
  lemma LoanThenReturnRestoresStock(db: Db, caller: Caller, c: LoanCreate, t1: int, t2: int)
    requires db.Valid() && ReturnKeysAreStrings(db.loanReturns)
    requires IsElevated(caller.role)
    requires LoanCreateEffect(db, caller, c, t1).result.Ok?
    ensures
      var o1 := LoanCreateEffect(db, caller, c, t1);
      var o2 := ReturnCreateEffect(o1.db, caller, db.nextId, t2);
      o2.result.Ok? && o2.db.books == db.books
  {
    var o1 := LoanCreateEffect(db, caller, c, t1);
    NewLoanFound(db.loans, db.nextId, o1.result.value);
    ExistingReturnNeverMatches(o1.db.loanReturns, db.nextId);
    TitleIndexStable(db.books, o1.db.books, c.bookTitle);
    var o2 := ReturnCreateEffect(o1.db, caller, db.nextId, t2);
    var bi := BookIndexByTitle(db.books, c.bookTitle).value;
    assert o2.db.books == db.books by {
      assert forall j :: 0 <= j < |db.books| ==> o2.db.books[j] == db.books[j];
    }
  }

  /** A return by an elevated caller never checks the loan's status, nor
      whether every copy is already on the shelf: returning a loan of a
      book with all copies available leaves more available than exist. */
  lemma ReturnCanExceedTotal(db: Db, caller: Caller, loanId: Id, now: int)
    requires ReturnKeysAreStrings(db.loanReturns)
    requires IsElevated(caller.role) && LoanIndex(db.loans, loanId).Some?
    requires
      var title := db.loans[LoanIndex(db.loans, loanId).value].bookTitle;
      && BookIndexByTitle(db.books, title).Some?
      && db.books[BookIndexByTitle(db.books, title).value].availableCount == db.books[BookIndexByTitle(db.books, title).value].totalCount
    ensures
      var bi := BookIndexByTitle(db.books, db.loans[LoanIndex(db.loans, loanId).value].bookTitle).value;
      var o := ReturnCreateEffect(db, caller, loanId, now);
      o.result.Ok? && o.db.books[bi].availableCount > o.db.books[bi].totalCount
  {
    ExistingReturnNeverMatches(db.loanReturns, loanId);
  }

  // ---- requests per loan -----------------------------------------------------

  /** No two stored requests name the same loan (in the same form). */
  ghost predicate OneRequestPerLoan(reqs: seq<LibrarianRequest>) {
    forall i, j :: 0 <= i < j < |reqs| ==> reqs[i].loanId != reqs[j].loanId
  }

  /** The renewal table keeps at most one request per loan: a renewal
      request adds one only when none names the loan, and an approval only
      changes a status. */
  lemma RenewalsStayOnePerLoan(db: Db, caller: Caller, loanId: Id, id: Id, now: int)
    requires OneRequestPerLoan(db.loanRenewals)
    ensures OneRequestPerLoan(RenewalCreateEffect(db, caller, loanId, now).db.loanRenewals)
    ensures OneRequestPerLoan(RenewalApproveEffect(db, caller, id).db.loanRenewals)
  {
    var o := RenewalCreateEffect(db, caller, loanId, now);
    if o.result.Ok? {
      var reqs := o.db.loanRenewals;
      assert reqs == db.loanRenewals + [o.result.value];
      forall i, j | 0 <= i < j < |reqs|
        ensures reqs[i].loanId != reqs[j].loanId
      {
        if j == |db.loanRenewals| {
          assert reqs[i] == db.loanRenewals[i];
        }
      }
    }
  }

  /** Every stored return request names its loan in string form, whatever
      the routes do, so the ObjectId duplicate check never fires. */
  lemma ReturnKeysStayStrings(db: Db, caller: Caller, loanId: Id, id: Id, now: int)
    requires ReturnKeysAreStrings(db.loanReturns)
    ensures ReturnKeysAreStrings(ReturnCreateEffect(db, caller, loanId, now).db.loanReturns)
    ensures ReturnKeysAreStrings(ReturnApproveEffect(db, caller, id).db.loanReturns)
  {
    var o := ReturnCreateEffect(db, caller, loanId, now);
    if o.result.Ok? {
      var reqs := o.db.loanReturns;
      forall i | 0 <= i < |reqs|
        ensures reqs[i].loanId.Str?
      {
        if i < |db.loanReturns| {
          assert reqs[i] == db.loanReturns[i];
        }
      }
    }
  }

  /** Because of that, a loan can be returned again and again: each
      elevated return request succeeds, stores another request for the
      same loan and gives back another copy. */
  lemma ReturningTwiceGivesTwo(db: Db, caller: Caller, loanId: Id, t1: int, t2: int)
    requires ReturnKeysAreStrings(db.loanReturns)
    requires IsElevated(caller.role) && LoanIndex(db.loans, loanId).Some?
    requires BookIndexByTitle(db.books, db.loans[LoanIndex(db.loans, loanId).value].bookTitle).Some?
    ensures
      var bi := BookIndexByTitle(db.books, db.loans[LoanIndex(db.loans, loanId).value].bookTitle).value;
      var o1 := ReturnCreateEffect(db, caller, loanId, t1);
      var o2 := ReturnCreateEffect(o1.db, caller, loanId, t2);
      && o1.result.Ok? && o2.result.Ok?
      && o1.result.value.loanId == o2.result.value.loanId
      && o2.db.books[bi].availableCount == db.books[bi].availableCount + 2
  {
    var o1 := ReturnCreateEffect(db, caller, loanId, t1);
    var li := LoanIndex(db.loans, loanId).value;
    ExistingReturnNeverMatches(db.loanReturns, loanId);
    ReturnKeysStayStrings(db, caller, loanId, 0, t1);
    ExistingReturnNeverMatches(o1.db.loanReturns, loanId);
    LoanIndexStable(db.loans, o1.db.loans, loanId);
    TitleIndexStable(db.books, o1.db.books, db.loans[li].bookTitle);
  }

  // ---- approvals happen once ---------------------------------------------------

  /** A second approval of the same renewal request is refused with 400
      and changes nothing. */
  lemma RenewalApprovedOnce(db: Db, caller: Caller, id: Id)
    requires RenewalApproveEffect(db, caller, id).result.Ok?
    ensures
      var o1 := RenewalApproveEffect(db, caller, id);
      RenewalApproveEffect(o1.db, caller, id) == Outcome(o1.db, Err(BadRequest))
  {
    var o1 := RenewalApproveEffect(db, caller, id);
    RequestIndexStable(db.loanRenewals, o1.db.loanRenewals, id);
  }

  /** A second approval of the same return request is refused with 400,
      changes nothing, and so gives no second copy back. */
  lemma ReturnApprovedOnce(db: Db, caller: Caller, id: Id)
    requires ReturnApproveEffect(db, caller, id).result.Ok?
    ensures
      var o1 := ReturnApproveEffect(db, caller, id);
      ReturnApproveEffect(o1.db, caller, id) == Outcome(o1.db, Err(BadRequest))
  {
    var o1 := ReturnApproveEffect(db, caller, id);
    RequestIndexStable(db.loanReturns, o1.db.loanReturns, id);
  }

  // ---- statuses -----------------------------------------------------------------

  /** A member's loan request, once approved by a librarian, is APPROVED
      and has taken one copy. */
  lemma MemberRequestThenApproval(db: Db, member: Caller, staff: Caller, c: LoanCreate, t1: int, t2: int)
    requires db.Valid()
    requires member.role == Member && IsElevated(staff.role)
    requires LoanCreateEffect(db, member, c, t1).result.Ok?
    requires db.books[BookIndexByTitle(db.books, c.bookTitle).value].availableCount > 0
    ensures
      var o1 := LoanCreateEffect(db, member, c, t1);
      var o2 := LoanApproveEffect(o1.db, staff, db.nextId, t2);
      && o2.result.Ok?
      && o2.result.value.status == LoanStatus.Approved
      && o2.result.value.username == member.username
      && StockMoved(db.books, o2.db.books, BookIndexByTitle(db.books, c.bookTitle).value, -1)
  {
    var o1 := LoanCreateEffect(db, member, c, t1);
    NewLoanFound(db.loans, db.nextId, o1.result.value);
  }

  /** A member's return of a loan they do not hold is refused with 403,
      yet the loan has already been marked RETURNED. */
  lemma ForbiddenReturnStillMarksReturned(db: Db, caller: Caller, loanId: Id, now: int)
    requires ReturnKeysAreStrings(db.loanReturns)
    requires caller.role == Member && LoanIndex(db.loans, loanId).Some?
    requires db.loans[LoanIndex(db.loans, loanId).value].username != caller.username
    ensures
      var o := ReturnCreateEffect(db, caller, loanId, now);
      && o.result == Err(Forbidden)
      && o.db.loans[LoanIndex(db.loans, loanId).value].status == Returned
  {
    ExistingReturnNeverMatches(db.loanReturns, loanId);
  }

  /** An elevated caller's renewal of an APPROVED loan leaves it PENDING:
      the second update's omitted status overwrites the first. */
  lemma ElevatedRenewalUnapproves(db: Db, caller: Caller, loanId: Id, now: int)
    requires IsElevated(caller.role)
    requires RenewalCreateEffect(db, caller, loanId, now).result.Ok?
    ensures
      var li := LoanIndex(db.loans, loanId).value;
      RenewalCreateEffect(db, caller, loanId, now).db.loans[li].status == LoanStatus.Pending
  {
  }
}

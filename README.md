# Library manager: the loan lifecycle in Dafny

This project models the loan lifecycle of a small library service. The
service is a FastAPI application over a MongoDB database (through the Motor
driver). The model covers four of its collections: books, loans, loan
renewals and loan returns. The database has a fifth collection, users, which belongs to the
authentication code and is not part of this model. The model covers:

- **Lending.** A member asks for a loan, and a librarian or admin approves it.
  Elevated callers (ADMIN and LIBRARIAN) may lend a book directly.
- **Renewal.** A loan is renewed on request, or immediately by an elevated
  caller. A renewal request is then approved.
- **Return.** A loan is returned on request, or immediately by an elevated
  caller. A return request is then approved.
- **Book edits.** The edit route fills in missing fields and checks the
  counts. This part follows the route as evidently intended: as written, its
  role test refuses every caller (see "Left out").
- **The store operations** these routes call (src/crud), the request schemas
  with their defaults, and the two field validators (src/models).

The database is a `Db` value, with the collections held as sequences in
insertion order. `find_one` is "the first match" (`Tables.FindFirst`). Record
ids come from one counter. `Db.Valid` states that ids are unique and below
that counter. The database handle is the class `Store.Library`. Its methods
are the crud functions, which update the collections in place.

Every route handler appears twice:

- **An effect function.** It maps the database before the request to an
  `Outcome`: the database after the request, plus the answer (`Ok` or an
  HTTP error). Its ensures clauses state what the route promises.
- **A route method.** It performs the same store calls in the route's order.
  It is proved to leave exactly the database, and give exactly the answer,
  that the effect function describes.

Lemmas in `Lifecycle` chain the effect functions to state what sequences of
requests do to a book's stock and to the requests stored for a loan.

The model keeps these behaviours of the code as written:

- **Writes made before an exception persist.** A Python exception raised by
  subscripting a `None` lookup is the answer 500 (`ServerError`). Any write
  made before it stays in the database.
- **Renewing resets an approved loan to PENDING.** `LoanUpdate.status`
  defaults to PENDING. Taking that default to be written as the string
  "PENDING", the second update of an elevated renewal resets the loan it has
  just approved (`RenewalRoutes.Renewed`; see "Left out" for the other
  reading).
- **Return requests are never treated as duplicates.** Return requests store
  the loan id as a string, but `existing_loan_return` queries its ObjectId.
  So the duplicate check never fires (`Store.ExistingReturnNeverMatches`).
- **Approvals ignore the loan's status.** Loan approval and return approval
  never look at the status of the loan. Approval can take a copy twice, and a
  return can give back a copy that was never taken, so that more copies are
  available than exist.
- **The create-loan user lookup is never awaited.** Its 404 is never raised.
- **Falsy fields cannot be set by the edit route.** It treats `""` and `0` as
  absent. So a count can never be set to 0 through it.

## Model

| member | source | states |
|---|---|---|
| Tables.FindFirst | src/crud/loan.py:78-85 | `find_one`: None exactly when no document matches; otherwise a matching position with no match before it |
| Tables.RemoveAt | src/crud/loan.py:97-102 | `delete_one` on a position: one element fewer, elements before it kept, elements after it shifted down by one |
| Models.ParseRole | src/models/user.py:8-11 | `Role(value)` accepts exactly the three role names and gives back the role with that name |
| Models.RoleRoundTrip | src/models/user.py:8-11 | every role's stored name parses back to that role |
| Models.NewUserBase | src/models/user.py:14-17 | a user built from only a username is a MEMBER with no full name |
| Models.PasswordValidator | src/models/user.py:28-33 | accepts exactly the values of length at least 8 that contain a digit, unchanged; the short-password message comes first, then the no-digit message |
| Models.ParseLoanStatus | src/models/loan.py:8-12 | `LoanStatus(value)` accepts exactly the four status names and inverts the naming |
| Models.LoanStatusRoundTrip | src/models/loan.py:8-12 | every loan status's stored name parses back to that status |
| Models.ParseLibrarianStatus | src/models/loan_return.py:7-9 | `LibrarianStatus(value)` accepts exactly PENDING and APPROVED and inverts the naming |
| Models.LibrarianStatusRoundTrip | src/models/loan_return.py:7-9 | every request status's stored name parses back to that status |
| Models.NewLoanCreate | src/models/loan.py:15-18 | a loan request with no status is PENDING |
| Models.DefaultLoanUpdate | src/models/loan.py:34-39 | an empty `LoanUpdate` leaves every field None except status, which is PENDING |
| Models.BookCountValidator | src/models/book.py:6-9 | accepts exactly the non-negative counts, unchanged; rejects the others with the negative-count message |
| Models.NewBookBase | src/models/book.py:12-17 | a book built from its text fields has both counts 0 |
| Models.DefaultBookUpdate | src/models/book.py:28-33 | an empty `BookUpdate` has no text field but both counts set to 0 |
| Store.ApplyLoanUpdate | src/crud/loan.py:88-91 | `update_loan`'s `$set`: every non-None field is written, every None field and the id are kept |
| Store.ApplyBookUpdate | src/crud/book.py:63-67 | `update_book`'s `$set`: every non-None field is written, every None field and the id are kept; an update with no field changes nothing |
| Store.OmittedStatusWritesPending | src/models/loan.py:34-39 | an update that only gives `return_date` also writes status PENDING |
| Store.DefaultCountsAreWritten | src/models/book.py:28-33 | an update that gives only a title also writes both counts as 0 |
| Store.GetBookById | src/crud/book.py:8-15 | `get_book_by_id`: None exactly when no book has the id, otherwise a stored book with that id |
| Store.GetBookByTitle | src/routes/loan.py:7 | `get_book_by_title`: None exactly when no book has the title, otherwise a stored book with that title |
| Store.GetLoan | src/crud/loan.py:23-30 | `get_loan`: None exactly when no loan has the id, otherwise the stored loan with that id |
| Store.ExistingLoan | src/crud/loan.py:78-85 | `existing_loan`: None exactly when no loan matches both username and title, otherwise a stored loan matching both |
| Store.GetLoanRenewal | src/crud/loan_renewal.py:23-30 | `get_loan_renewal`: None exactly when no renewal has the id, otherwise the stored renewal |
| Store.ExistingLoanRenewal | src/crud/loan_renewal.py:68-75 | `existing_loan_renewal` finds a renewal holding the loan id as a string, and nothing else |
| Store.GetLoanReturn | src/crud/loan_return.py:23-30 | `get_loan_return`: None exactly when no return has the id, otherwise the stored return |
| Store.ExistingLoanReturn | src/crud/loan_return.py:68-75 | `existing_loan_return` finds only a return holding the loan id as an ObjectId |
| Store.ExistingReturnNeverMatches | src/crud/loan_return.py:68-75 | when every stored return holds its loan id as a string, the ObjectId query finds nothing |
| Store.Library.UpdateBook | src/crud/book.py:63-72 | writes the non-None fields of the book with that id, and nothing when there is none; answers with the book as stored afterwards, or 500 if it is missing; other collections unchanged |
| Store.Library.DeleteBook | src/crud/book.py:75-80 | false exactly when no book had the id; otherwise exactly that book is removed |
| Store.Library.CreateLoan | src/crud/loan.py:9-20 | appends a loan with a fresh id, the request's username, title and status, `date = now` and `return_date = now + 14 days`, and answers with it as stored |
| Store.Library.UpdateLoan | src/crud/loan.py:88-94 | applies the `$set` to the loan with that id, and to nothing when there is none; answers with `get_loan(id)` |
| Store.Library.DeleteLoan | src/crud/loan.py:97-102 | false exactly when no loan had the id; otherwise exactly that loan is removed |
| Store.Library.CreateLoanRenewal | src/crud/loan_renewal.py:9-20 | appends a renewal with a fresh id, the loan id as a string, the given status and `date = now` |
| Store.Library.UpdateLoanRenewal | src/crud/loan_renewal.py:78-88 | changes only the status of the renewal with that id; answers with the re-read record |
| Store.Library.DeleteLoanRenewal | src/crud/loan_renewal.py:91-96 | false exactly when no renewal had the id; otherwise exactly that record is removed |
| Store.Library.CreateLoanReturn | src/crud/loan_return.py:9-20 | appends a return with a fresh id, the loan id as a string, the given status and `date = now` |
| Store.Library.UpdateLoanReturn | src/crud/loan_return.py:78-88 | changes only the status of the return with that id; answers with the re-read record |
| Store.Library.DeleteLoanReturn | src/crud/loan_return.py:91-96 | false exactly when no return had the id; otherwise exactly that record is removed |
| Store.WriteAvailable | src/routes/loan.py:56-62 | `update_book(book["_id"], BookUpdate(available_count=…, total_count=…))` on a stored book changes only that book's availability |
| Store.WriteLoan | src/routes/loan.py:69 | `update_loan` on a stored loan replaces exactly that loan with the updated one and answers with it |
| Store.WriteRenewalStatus | src/routes/loan_renewal.py:134 | `update_loan_renewal` on a stored renewal changes only its status |
| Store.WriteReturnStatus | src/routes/loan_return.py:118 | `update_loan_return` on a stored return changes only its status |
| LoanRoutes.WholeLoanUpdate | src/routes/loan.py:69 | `LoanUpdate(**loan)` gives every field, so applying it to any loan with the same id yields `loan` |
| LoanRoutes.LoanApproveEffect | src/routes/loan.py:31-71 | 403 exactly for members; 404 exactly for a missing loan; 500 for a missing book; 400 exactly when no copy is available; an elevated approval of a stored loan whose book has a copy left succeeds; no failure writes anything; on success the loan is APPROVED, dated now and due in 14 days, and the book's availability is down by exactly one; the loan's previous status is never checked |
| LoanRoutes.CommitApproval | src/routes/loan.py:56-69 | the two writes of an approval: availability down by one, then the loan rewritten whole |
| LoanRoutes.ApproveStoredLoan | src/routes/loan.py:47-69 | for a stored loan: 500 with nothing written when its book is missing, 400 with nothing written when no copy is left, otherwise the approval's writes and the approved loan as answer |
| LoanRoutes.LoanApproveRoute | src/routes/loan.py:31-71 | the handler leaves exactly the database and gives exactly the answer of `LoanApproveEffect` |
| LoanRoutes.LoanCreateEffect | src/routes/loan.py:74-125 | 400 when the first loan of that user for that title is not RETURNED, checked first; past that check, 404 exactly when the book is missing, and success whenever the book exists and the caller is a member or a copy is available; never 403 or 500, so no 404 for a missing user; a member's loan is PENDING, in their own name, and leaves stock alone; an elevated caller's loan is APPROVED for the named user, is refused with 400 when no copy is available, and takes one copy; the new loan is stamped now and due in 14 days; failures write nothing |
| LoanRoutes.CommitCreation | src/routes/loan.py:104-122 | the writes of an accepted loan request: for an elevated caller availability down by one, then the new loan appended |
| LoanRoutes.LoanCreateRoute | src/routes/loan.py:74-125 | the handler leaves exactly the database and gives exactly the answer of `LoanCreateEffect` |
| RenewalRoutes.Renewed | src/routes/loan_renewal.py:85-101 | an elevated renewal leaves the loan PENDING with its due date 14 days later; a member's leaves it RENEW_PENDING with its due date unchanged; the other fields are kept |
| RenewalRoutes.RenewalCreateEffect | src/routes/loan_renewal.py:51-108 | 404 exactly for a missing loan; 403 exactly for a member renewing another user's loan; 400 for a member's loan that is not APPROVED, and for a loan that already has a renewal; a request past these checks succeeds; failures write nothing; on success the loan becomes `Renewed` and one renewal naming it is appended, APPROVED for an elevated caller and PENDING otherwise |
| RenewalRoutes.RenewLoan | src/routes/loan_renewal.py:85-101 | the one or two `update_loan` calls of a renewal turn the loan into `Renewed` |
| RenewalRoutes.CommitRenewal | src/routes/loan_renewal.py:85-105 | the loan updates, then the stored renewal with a fresh id |
| RenewalRoutes.RenewalCreateRoute | src/routes/loan_renewal.py:51-108 | the handler leaves exactly the database and gives exactly the answer of `RenewalCreateEffect` |
| RenewalRoutes.RenewalApproveEffect | src/routes/loan_renewal.py:111-146 | 403 exactly for members; 404 exactly for a missing renewal; 400 exactly for one already APPROVED; otherwise the renewal is marked APPROVED, and that write stays even when the loan is missing (500); on success the loan is APPROVED and due 14 days later, and the answer is the approved renewal |
| RenewalRoutes.CommitRenewalApproval | src/routes/loan_renewal.py:134-145 | status write, loan read (500 if missing), loan update, re-read of the renewal |
| RenewalRoutes.RereadRenewal | src/routes/loan_renewal.py:145 | `get_loan_renewal(id)` finds the renewal stored at that position |
| RenewalRoutes.RenewalApproveRoute | src/routes/loan_renewal.py:111-146 | the handler leaves exactly the database and gives exactly the answer of `RenewalApproveEffect` |
| ReturnRoutes.ReturnCreateEffect | src/routes/loan_return.py:47-92 | 400 exactly when an ObjectId-keyed return exists; never 404; a missing loan gives 500 with nothing written; past the duplicate check the loan is RETURNED whatever follows; for a stored loan a member gets 403 exactly on another user's loan and succeeds on their own, and an elevated caller gets 500 exactly when the loan's book is missing and succeeds otherwise; a failure writes nothing but that status; on success one return is appended, APPROVED for an elevated caller and PENDING otherwise; an elevated return gives one copy back and a member's leaves stock alone |
| ReturnRoutes.ReturnStoredLoan | src/routes/loan_return.py:62-89 | for a stored loan: the RETURNED write, then the caller's branch (`FiledReturn`) on the database that write leaves |
| ReturnRoutes.FileReturn | src/routes/loan_return.py:65-89 | an elevated caller: 500 with nothing further written when the book is missing, else one copy back and an APPROVED return; a member: 403 on another user's loan, else a PENDING return |
| ReturnRoutes.CommitReturn | src/routes/loan_return.py:65-89 | for an elevated caller availability up by one, then the new return appended |
| ReturnRoutes.ReturnCreateRoute | src/routes/loan_return.py:47-92 | the handler leaves exactly the database and gives exactly the answer of `ReturnCreateEffect` |
| ReturnRoutes.ReturnApproveEffect | src/routes/loan_return.py:95-131 | 403 exactly for members; 404 exactly for a missing return; 400 exactly for one already APPROVED, with nothing written; otherwise the return is marked APPROVED; 500 exactly when its loan or that loan's book is missing, keeping that write, and success otherwise; on success the book's availability is up by one, with no comparison with its total |
| ReturnRoutes.CommitReturnApproval | src/routes/loan_return.py:118-130 | the status write, then `GiveBack` |
| ReturnRoutes.GiveBack | src/routes/loan_return.py:120-130 | loan read (500 if missing), book read (500 if missing), availability up by one, re-read of the return |
| ReturnRoutes.RereadReturn | src/routes/loan_return.py:130 | `get_loan_return(id)` finds the return stored at that position |
| ReturnRoutes.ReturnApproveRoute | src/routes/loan_return.py:95-131 | the handler leaves exactly the database and gives exactly the answer of `ReturnApproveEffect` |
| BookRoutes.MergeBookUpdate | src/routes/book.py:71-80 | every field of the merged update is set; a truthy field of the body is kept, and a falsy one (None, "" or 0) takes the stored book's value |
| BookRoutes.EmptyUpdateKeepsBook | src/routes/book.py:71-80 | a body with no field set, whose counts default to 0, rewrites the book unchanged |
| BookRoutes.ZeroCountIsNotWritten | src/routes/book.py:79-80 | an available count of 0 in the body is replaced by the stored count |
| BookRoutes.BookUpdateEffect | src/routes/book.py:57-100 | 403 exactly for members; 404 exactly for a missing book; 400 exactly when the merged total is below the merged available count; failures write nothing; on success the stored book becomes the merged one, which never has more copies available than in total |
| BookRoutes.WriteBook | src/routes/book.py:95-96 | `update_book` with every field given replaces exactly that book and answers with it |
| BookRoutes.BookUpdateRoute | src/routes/book.py:57-100 | the handler fills the body field by field, and leaves exactly the database and gives exactly the answer of `BookUpdateEffect` |
| Lifecycle.ApprovingTwiceTakesTwo | src/routes/loan.py:41-69 | approving the same loan twice succeeds twice and takes two copies |
| Lifecycle.LoanThenReturnRestoresStock | src/routes/loan_return.py:62-76 | an elevated loan followed by the elevated return of that loan leaves every book as it was |
| Lifecycle.ReturnCanExceedTotal | src/routes/loan_return.py:65-76 | an elevated return of a loan whose book has every copy available succeeds, leaving more copies available than in total |
| Lifecycle.RenewalsStayOnePerLoan | src/routes/loan_renewal.py:78-83 | renewal creation and renewal approval keep at most one renewal per loan |
| Lifecycle.ReturnKeysStayStrings | src/crud/loan_return.py:9-20 | return creation and return approval keep every stored return keyed by a string loan id |
| Lifecycle.ReturningTwiceGivesTwo | src/routes/loan_return.py:55-76 | two elevated returns of the same loan both succeed, store two returns for it, and give back two copies |
| Lifecycle.RenewalApprovedOnce | src/routes/loan_renewal.py:128-134 | after a successful renewal approval, approving it again gives 400 and changes nothing |
| Lifecycle.ReturnApprovedOnce | src/routes/loan_return.py:112-118 | after a successful return approval, approving it again gives 400 and changes nothing, so no second copy comes back |
| Lifecycle.MemberRequestThenApproval | src/routes/loan.py:80-82 | a member's loan request with a copy available, approved by a librarian, ends APPROVED in the member's name and takes one copy |
| Lifecycle.ForbiddenReturnStillMarksReturned | src/routes/loan_return.py:62-83 | a member returning another user's loan gets 403, and the loan is RETURNED anyway |
| Lifecycle.ElevatedRenewalUnapproves | src/routes/loan_renewal.py:85-95 | an elevated caller's accepted renewal leaves the loan PENDING |

## Left out

- Authentication is not modelled: JWT handling, password hashing, `get_current_user`, and the users collection with its routes and crud.
- The caller of a route is modelled as a username and a parsed `Role`. This stands for an interface the code never builds. `get_current_user` returns a pydantic `UserBase` (src/auth.py:87), while the routes subscript it as a dict (`user_data["role"]`, `user_data["sub"]`), and `UserBase` has no `sub` field. The model takes `sub` to be the username and `role` to be the account's role.
- BookRoutes.BookUpdateEffect: src/routes/book.py:64 tests the raw role string for membership in `[Role.ADMIN, Role.LIBRARIAN]`, without `Role(...)`. `Role` is a plain `Enum` (src/models/user.py:8), not a `str` subclass, so a string never equals one of its members. As written, the test is always false, and every caller, ADMIN and LIBRARIAN included, gets the 403 at src/routes/book.py:97-100. The model parses the role as the other routes do. Its 403 for members only, and its elevated 404, 400 and write paths, describe the route as evidently intended, not as written.
- The query endpoints are not modelled: listings, search, pagination, per-id reads, `get_user_loans` and the like. They are database query semantics, not lifecycle logic.
- The delete routes, book creation and user administration are not modelled. No lifecycle route deletes anything. The four crud deletes are modelled as store operations only (`Store.Library.DeleteBook`, `DeleteLoan`, `DeleteLoanRenewal` and `DeleteLoanReturn`).
- BookRoutes.BookUpdateEffect: the `search_book` uniqueness query at src/routes/book.py:88-93 is not modelled. The model writes as if the query reported the book unique. In the code, the call passes the title and author positionally into `skip` and `limit`. With the Motor driver, `Cursor.skip` raises `TypeError` on a string. So the real route answers 500 after the bounds check and never writes; the model's success path describes the route as evidently intended.
- HTTP plumbing is not modelled: response models, the string conversion of `_id`, and the timestamp types. Times are integer seconds, and `now` is a parameter in place of the clock.
- Malformed ids are not modelled: an id that is not a valid ObjectId makes `ObjectId(id)` raise. Ids are `nat`, and fresh ids come from a counter in place of the database.
- Concurrency is not modelled: interleaved requests, and the lack of transactions between a route's successive writes.
- RenewalRoutes.Renewed: the model assumes the `LoanUpdate.status` default (src/models/loan.py:39) reaches the database as the string "PENDING". If pydantic leaves the unvalidated default as the `LoanStatus` member itself, the BSON encoder refuses it. The elevated renewal's second `update_loan` (src/routes/loan_renewal.py:93-95) then raises, and the route answers 500. The loan stays APPROVED with its old due date, and no renewal is stored. The same assumption underlies `Store.OmittedStatusWritesPending` and `Lifecycle.ElevatedRenewalUnapproves`.
- Models.PasswordValidator: `str.isdigit` also accepts non-ASCII digits; the model counts only `0`-`9`.
- The routes look documents up through the same filters as `get_loan`, `get_book_by_title` and the other reads, and address them by position. The read functions themselves are given separately (`Store.GetLoan` etc.).
- `get_book_by_title` is imported by the loan routes but is not defined in src/crud/book.py. So the imports at src/routes/loan.py:7 and src/routes/loan_return.py:7 raise `ImportError`, and main.py, which imports both routers, does not start as written. The model describes the routes as if the function existed, as the first book with that title.
- The code does not keep `available_count <= total_count`: return and return approval raise availability with no bound. Nor does it enforce any order of loan statuses. The model follows the code, and `Lifecycle` states the consequences.

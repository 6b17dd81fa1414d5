/** The request and record schemas of the library service (the files under src/models):
    the three enumerations, the defaults of the create/update models, and
    the two field validators. Enumerations are stored in the database as
    their string values and re-parsed by the handlers, so each has a
    name/parse pair. */
module Models {
  import opened Tables

  // ---- src/models/user.py ------------------------------------------------

  datatype Role = Admin | Librarian | Member

  /** ADMIN and LIBRARIAN are the roles the handlers let through their
      `in [Role.ADMIN, Role.LIBRARIAN]` tests. */
  predicate IsElevated(r: Role) {
    r == Admin || r == Librarian
  }

  function RoleName(r: Role): string {
    match r
    case Admin => "ADMIN"
    case Librarian => "LIBRARIAN"
    case Member => "MEMBER"
  }

  /** `Role(value)`: None where Python raises ValueError. */
  function ParseRole(s: string): (r: Option<Role>)
    ensures r.Some? <==> s in {"ADMIN", "LIBRARIAN", "MEMBER"}
    ensures r.Some? ==> RoleName(r.value) == s
  {
    if s == "ADMIN" then Some(Admin)
    else if s == "LIBRARIAN" then Some(Librarian)
    else if s == "MEMBER" then Some(Member)
    else None
  }

  lemma RoleRoundTrip(r: Role)
    ensures ParseRole(RoleName(r)) == Some(r)
  {
  }

  /** The authenticated caller of a route: the token's subject and role. */
  datatype Caller = Caller(username: string, role: Role)

  /** The part of a user account the lifecycle looks at. */
  datatype UserBase = UserBase(username: string, role: Role, fullName: Option<string>)

  /** A `UserBase` built with only its required field set. */
  function NewUserBase(username: string): (u: UserBase)
    ensures u.username == username && u.fullName == None
    ensures u.role == Member && !IsElevated(u.role)
  {
    UserBase(username, Member, None)
  }

  const ShortPasswordMessage := "Password is short. it sould be at least 8 characters"
  const NoDigitMessage := "Password should be a combination of digits and characters"
  const MinPasswordLength := 8

  /** Outcome of a field validator: the value, or the ValueError message. */
  datatype Validated<+T> = Accepted(value: T) | Rejected(message: string)

  predicate IsDigit(c: char) {
    '0' <= c <= '9'
  }

  /** `password_validator`: length first, then the digit rule. */
  function PasswordValidator(value: string): (r: Validated<string>)
    ensures r.Accepted? <==> |value| >= MinPasswordLength && exists c :: c in value && IsDigit(c)
    ensures r.Accepted? ==> r.value == value
    ensures |value| < MinPasswordLength ==> r == Rejected(ShortPasswordMessage)
    ensures |value| >= MinPasswordLength && (forall c :: c in value ==> !IsDigit(c)) ==> r == Rejected(NoDigitMessage)
  {
    if |value| < MinPasswordLength then Rejected(ShortPasswordMessage)
    else if !(exists i :: 0 <= i < |value| && IsDigit(value[i])) then Rejected(NoDigitMessage)
    else Accepted(value)
  }

  // ---- src/models/loan.py and src/models/loan_return.py -------------------

  datatype LoanStatus = Pending | Approved | Returned | RenewPending

  function LoanStatusName(s: LoanStatus): string {
    match s
    case Pending => "PENDING"
    case Approved => "APPROVED"
    case Returned => "RETURNED"
    case RenewPending => "RENEW_PENDING"
  }

  /** `LoanStatus(value)`: exactly four strings are accepted. */
  function ParseLoanStatus(s: string): (r: Option<LoanStatus>)
    ensures r.Some? <==> s in {"PENDING", "APPROVED", "RETURNED", "RENEW_PENDING"}
    ensures r.Some? ==> LoanStatusName(r.value) == s
  {
    if s == "PENDING" then Some(LoanStatus.Pending)
    else if s == "APPROVED" then Some(LoanStatus.Approved)
    else if s == "RETURNED" then Some(Returned)
    else if s == "RENEW_PENDING" then Some(RenewPending)
    else None
  }

  lemma LoanStatusRoundTrip(s: LoanStatus)
    ensures ParseLoanStatus(LoanStatusName(s)) == Some(s)
  {
  }

  /** The approval state of a renewal or return request. */
  datatype LibrarianStatus = Pending | Approved

  function LibrarianStatusName(s: LibrarianStatus): string {
    match s
    case Pending => "PENDING"
    case Approved => "APPROVED"
  }

  function ParseLibrarianStatus(s: string): (r: Option<LibrarianStatus>)
    ensures r.Some? <==> s in {"PENDING", "APPROVED"}
    ensures r.Some? ==> LibrarianStatusName(r.value) == s
  {
    if s == "PENDING" then Some(LibrarianStatus.Pending)
    else if s == "APPROVED" then Some(LibrarianStatus.Approved)
    else None
  }

  lemma LibrarianStatusRoundTrip(s: LibrarianStatus)
    ensures ParseLibrarianStatus(LibrarianStatusName(s)) == Some(s)
  {
  }

  /** `LoanCreate` (= `LoanBase`): the fields a client sends to request a loan. */
  datatype LoanCreate = LoanCreate(username: string, bookTitle: string, status: LoanStatus)

  /** A `LoanCreate` whose status was not given. */
  function NewLoanCreate(username: string, bookTitle: string): (c: LoanCreate)
    ensures c.username == username && c.bookTitle == bookTitle
    ensures c.status == LoanStatus.Pending
  {
    LoanCreate(username, bookTitle, LoanStatus.Pending)
  }

  /** `LoanUpdate`: every field optional; times are integer timestamps. */
  datatype LoanUpdate = LoanUpdate(
    username: Option<string>,
    bookTitle: Option<string>,
    date: Option<int>,
    returnDate: Option<int>,
    status: Option<LoanStatus>)

  /** A `LoanUpdate` with no field given: every field is None EXCEPT status,
      whose declared default is PENDING. */
  function DefaultLoanUpdate(): (u: LoanUpdate)
    ensures u.username == None && u.bookTitle == None
    ensures u.date == None && u.returnDate == None
    ensures u.status == Some(LoanStatus.Pending)
  {
    LoanUpdate(None, None, None, None, Some(LoanStatus.Pending))
  }

  // ---- src/models/book.py ------------------------------------------------

  const NegativeCountMessage := "The count of books can not be a negative number"

  /** `book_count_validator`. */
  function BookCountValidator(value: int): (r: Validated<nat>)
    ensures r.Accepted? <==> value >= 0
    ensures r.Accepted? ==> r.value == value
    ensures r.Rejected? ==> r.message == NegativeCountMessage
  {
    if value < 0 then Rejected(NegativeCountMessage) else Accepted(value)
  }

  /** `BookBase` / `BookCreate`. Counts that pass the validator are `nat`. */
  datatype BookBase = BookBase(
    title: string,
    author: string,
    category: string,
    totalCount: Option<nat>,
    availableCount: Option<nat>)

  /** A `BookBase` with only the text fields given: both counts default to 0. */
  function NewBookBase(title: string, author: string, category: string): (b: BookBase)
    ensures b.title == title && b.author == author && b.category == category
    ensures b.totalCount == Some(0) && b.availableCount == Some(0)
  {
    BookBase(title, author, category, Some(0), Some(0))
  }

  /** `BookUpdate`. */
  datatype BookUpdate = BookUpdate(
    title: Option<string>,
    author: Option<string>,
    category: Option<string>,
    totalCount: Option<nat>,
    availableCount: Option<nat>)

  /** A `BookUpdate` with no field given: the text fields are None but the
      counts default to 0, not None. */
  function DefaultBookUpdate(): (u: BookUpdate)
    ensures u.title == None && u.author == None && u.category == None
    ensures u.totalCount == Some(0) && u.availableCount == Some(0)
  {
    BookUpdate(None, None, None, Some(0), Some(0))
  }

  /** The `BookUpdate(available_count=…, total_count=…)` the lifecycle
      handlers build. Its counts are `nat`: the handlers only build it with
      values the validator accepts, which the verifier checks at each use. */
  function CountsUpdate(total: nat, available: nat): BookUpdate {
    BookUpdate(None, None, None, Some(total), Some(available))
  }
}

/** The records of the lending app: users, books, book requests and issued books.
    Each Django model becomes a value type; the tables that hold them live in Workflow.Db. */
module Models {

  /** Primary keys: `<int:pk>` URL parameters and auto-increment ids. */
  type Id = nat

  /** An abstract timestamp standing in for `timezone.now()`, counted in days. */
  type Time = nat

  /** Loans are due this many days after they are issued (`timedelta(days=14)`). */
  const LoanPeriod: Time := 14

  datatype Option<+T> = None | Some(value: T)

  /** `User.role`: a choice between student and librarian. */
  datatype Role = Student | Librarian

  /** The role a new user gets when none is given. */
  const DefaultRole: Role := Student

  /** The authenticated user of a request; the rest of `AbstractUser` is left out. */
  datatype User = User(id: Id, role: Role)

  /** `is_librarian`, the test behind `user_passes_test` on the librarian handlers. */
  predicate IsLibrarian(u: User) {
    u.role == Librarian
  }

  /** `Book`: both counts are `PositiveIntegerField`s, so they are never negative. */
  datatype Book = Book(title: string, author: string, totalCopies: nat, availableCopies: nat)

  /** The adjustment `Book.save` makes before it writes the row: it caps the available
      copies at the total. */
  function Clamped(b: Book): (r: Book)
    ensures r.availableCopies <= r.totalCopies
    ensures r.availableCopies <= b.availableCopies
    ensures b.availableCopies <= b.totalCopies ==> r == b
    ensures b.availableCopies > b.totalCopies ==> r.availableCopies == b.totalCopies
    ensures r.title == b.title && r.author == b.author && r.totalCopies == b.totalCopies
  {
    if b.availableCopies > b.totalCopies then b.(availableCopies := b.totalCopies) else b
  }

  /** Saving a book twice stores the same row as saving it once. */
  lemma ClampIdempotent(b: Book)
    ensures Clamped(Clamped(b)) == Clamped(b)
  {
  }

  /** `BookRequest.status`. */
  datatype Status = Pending | Approved | Rejected | Issued

  /** The statuses `request_book` counts as an outstanding request. */
  predicate IsOpen(s: Status) {
    s == Pending || s == Approved
  }

  /** One edge of the request state machine: approve, reject or issue. */
  predicate Transition(s: Status, t: Status) {
    (s == Pending && t == Approved) || (s == Pending && t == Rejected) || (s == Approved && t == Issued)
  }

  /** `t` is reachable from `s` by zero or more transitions. */
  predicate Precedes(s: Status, t: Status) {
    s == t || s == Pending || (s == Approved && t == Issued)
  }

  /** Precedes is exactly the reflexive-transitive closure of Transition: it holds of the
      empty path, of every edge, of every path of two edges, and no path is longer. */
  lemma PrecedesIsReachability(s: Status, t: Status)
    ensures Precedes(s, t) <==> s == t || Transition(s, t) || (Transition(s, Approved) && Transition(Approved, t))
    ensures forall m :: Precedes(s, m) && Precedes(m, t) ==> Precedes(s, t)
    ensures forall m, n :: !(Transition(s, m) && Transition(m, n) && Transition(n, t))
  {
  }

  /** Rejected and issued requests have no way out. */
  lemma TerminalIsFinal(s: Status, t: Status)
    requires s == Rejected || s == Issued
    ensures Precedes(s, t) <==> t == s
    ensures !Transition(s, t)
  {
  }

  /** `BookRequest`: the student and book it is for, when it was made, its status and the
      approval stamp (`approval_date`, `approved_by`) a librarian's decision leaves. */
  datatype BookRequest = BookRequest(
    student: Id,
    book: Id,
    requestDate: Time,
    status: Status,
    approvalDate: Option<Time>,
    approvedBy: Option<Id>)

  /** `IssuedBook`: a loan, tied one-to-one to the request it came from; `returnDate` stays
      `None` while the copy is out. */
  datatype IssuedBook = IssuedBook(
    student: Id,
    book: Id,
    request: Id,
    issueDate: Time,
    dueDate: Option<Time>,
    returnDate: Option<Time>)
}

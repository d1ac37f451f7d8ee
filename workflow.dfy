/** The lending workflow of library/views.py as a specification: each state-changing
    handler is a function from the database before the request to the response and the
    database after it. Views.Library carries the same handlers out step by step. */
module Workflow {
  import opened Models

  /** The three tables, keyed by primary key, with the next id each auto-increment key
      will hand out (ids are never reused). */
  datatype Db = Db(
    books: map<Id, Book>,
    requests: map<Id, BookRequest>,
    loans: map<Id, IssuedBook>,
    nextBook: Id,
    nextRequest: Id,
    nextLoan: Id)

  /** What a handler answers with. Success and the flash-message refusals redirect;
      Http404 is `get_object_or_404` failing; LoginRedirect is `user_passes_test`
      turning a non-librarian away; IntegrityError is the database refusing a negative
      `PositiveIntegerField`. */
  datatype Response = Success | AlreadyRequested | NotAvailable | Http404 | LoginRedirect | IntegrityError

  datatype Handled = Handled(resp: Response, db: Db)

  /** A fresh database: empty tables, ids starting at 1. */
  const Empty: Db := Db(map[], map[], map[], 1, 1, 1)

  // ---------------------------------------------------------------------------
  // What a consistent database looks like: the key, foreign-key, one-to-one and
  // check constraints of library/models.py together with what the handlers keep.
  // ---------------------------------------------------------------------------

  ghost predicate FreshIds(db: Db) {
    && (forall b :: b in db.books ==> b < db.nextBook)
    && (forall r :: r in db.requests ==> r < db.nextRequest)
    && (forall l :: l in db.loans ==> l < db.nextLoan)
  }

  /** 0 <= available_copies <= total_copies for every book. */
  ghost predicate StockInRange(db: Db) {
    forall b :: b in db.books ==> db.books[b].availableCopies <= db.books[b].totalCopies
  }

  ghost predicate RequestsResolve(db: Db) {
    forall r :: r in db.requests ==> db.requests[r].book in db.books
  }

  /** A request carries an approval stamp exactly when a librarian has decided it. */
  ghost predicate Stamped(db: Db) {
    forall r :: r in db.requests ==>
      && (db.requests[r].status == Pending <==> db.requests[r].approvalDate.None?)
      && (db.requests[r].status == Pending <==> db.requests[r].approvedBy.None?)
  }

  /** A loan belongs to an issued request, for that request's student and book, and is due
      a loan period after it was issued. */
  ghost predicate LoanMatches(db: Db, loan: IssuedBook) {
    && loan.request in db.requests
    && db.requests[loan.request].status == Issued
    && loan.book == db.requests[loan.request].book
    && loan.student == db.requests[loan.request].student
    && loan.dueDate == Some(loan.issueDate + LoanPeriod)
  }

  ghost predicate LoansResolve(db: Db) {
    forall l :: l in db.loans ==> LoanMatches(db, db.loans[l])
  }

  /** Every issued request has its loan ... */
  ghost predicate IssuedHaveLoans(db: Db) {
    forall r :: r in db.requests && db.requests[r].status == Issued ==>
      exists l :: l in db.loans && db.loans[l].request == r
  }

  /** ... and no request has two (`IssuedBook.request` is one-to-one). */
  ghost predicate OneLoanPerRequest(db: Db) {
    forall l, m :: l in db.loans && m in db.loans && db.loans[l].request == db.loans[m].request ==> l == m
  }

  /** No student holds two pending-or-approved requests for the same book. */
  ghost predicate OneOpenRequest(db: Db) {
    forall r, q ::
      (&& r in db.requests && q in db.requests && r != q
       && db.requests[r].student == db.requests[q].student
       && db.requests[r].book == db.requests[q].book
       && IsOpen(db.requests[r].status))
      ==> !IsOpen(db.requests[q].status)
  }

  /** The constraints together. */
  ghost predicate Inv(db: Db) {
    && FreshIds(db)
    && StockInRange(db)
    && RequestsResolve(db)
    && Stamped(db)
    && LoansResolve(db)
    && IssuedHaveLoans(db)
    && OneLoanPerRequest(db)
    && OneOpenRequest(db)
  }

  // ---------------------------------------------------------------------------
  // Lookups the handlers make
  // ---------------------------------------------------------------------------

  /** The duplicate check of `request_book`: the user already has a pending or approved
      request for the book. */
  predicate HasOpenRequest(requests: map<Id, BookRequest>, student: Id, book: Id) {
    exists r :: r in requests && requests[r].student == student && requests[r].book == book && IsOpen(requests[r].status)
  }

  /** The lookup of approve, reject and issue finds the request, and in status `s`. */
  predicate HasRequestIn(db: Db, pk: Id, s: Status) {
    pk in db.requests && db.requests[pk].status == s
  }

  /** The lookup of `return_book` finds the loan, and it has not been returned yet. */
  predicate OnLoan(db: Db, pk: Id) {
    pk in db.loans && db.loans[pk].returnDate.None?
  }

  function Min(a: nat, b: nat): (m: nat) {
    if a <= b then a else b
  }

  // ---------------------------------------------------------------------------
  // The handlers
  // ---------------------------------------------------------------------------

  /** `add_book` (POST): a new book with every copy available. */
  function AddBook(db: Db, title: string, author: string, totalCopies: int): (h: Handled)
    ensures h.resp == Success <==> totalCopies >= 0
    ensures h.resp != Success ==> h.resp == IntegrityError && h.db == db
    ensures FreshIds(db) && h.resp == Success ==> db.nextBook !in db.books
    ensures h.resp == Success ==>
      && h.db.books.Keys == db.books.Keys + {db.nextBook}
      && h.db.books[db.nextBook] == Book(title, author, totalCopies, totalCopies)
      && (forall b :: b in db.books && b != db.nextBook ==> h.db.books[b] == db.books[b])
      && h.db == db.(books := h.db.books, nextBook := db.nextBook + 1)
  {
    if totalCopies < 0 then Handled(IntegrityError, db)
    else
      var book := Clamped(Book(title, author, totalCopies, totalCopies));
      Handled(Success, db.(books := db.books[db.nextBook := book], nextBook := db.nextBook + 1))
  }

  /** `update_book` (POST): new title, author and total; the available copies are kept,
      except that saving caps them at the new total. */
  function UpdateBook(db: Db, pk: Id, title: string, author: string, totalCopies: int): (h: Handled)
    ensures h.resp == Http404 <==> pk !in db.books
    ensures h.resp == IntegrityError <==> pk in db.books && totalCopies < 0
    ensures h.resp == Success <==> pk in db.books && totalCopies >= 0
    ensures h.resp != Success ==> h.db == db
    ensures h.resp == Success ==>
      && h.db == db.(books := h.db.books)
      && h.db.books.Keys == db.books.Keys
      && (forall b :: b in db.books && b != pk ==> h.db.books[b] == db.books[b])
      && h.db.books[pk].title == title && h.db.books[pk].author == author
      && h.db.books[pk].totalCopies == totalCopies
      && h.db.books[pk].availableCopies == Min(db.books[pk].availableCopies, totalCopies)
  {
    if pk !in db.books then Handled(Http404, db)
    else if totalCopies < 0 then Handled(IntegrityError, db)
    else
      var book := db.books[pk].(title := title, author := author, totalCopies := totalCopies);
      Handled(Success, db.(books := db.books[pk := Clamped(book)]))
  }

  /** The rows `book.delete()` removes: the book, its requests (CASCADE on
      `BookRequest.book`) and the loans of the book or of a removed request (CASCADE on
      `IssuedBook.book` and `IssuedBook.request`). */
  function DeleteBook(db: Db, pk: Id): (h: Handled)
    ensures h.resp == Success <==> pk in db.books
    ensures h.resp != Success ==> h.resp == Http404 && h.db == db
    ensures h.resp == Success ==>
      && h.db.books.Keys == db.books.Keys - {pk}
      && (forall b :: b in h.db.books ==> h.db.books[b] == db.books[b])
      && (forall r :: r in db.requests ==> (r in h.db.requests <==> db.requests[r].book != pk))
      && (forall r :: r in h.db.requests ==> r in db.requests && h.db.requests[r] == db.requests[r])
      && (forall l :: l in db.loans ==>
            (l in h.db.loans <==>
               db.loans[l].book != pk
               && !(db.loans[l].request in db.requests && db.requests[db.loans[l].request].book == pk)))
      && (forall l :: l in h.db.loans ==> l in db.loans && h.db.loans[l] == db.loans[l])
      && h.db.nextBook == db.nextBook && h.db.nextRequest == db.nextRequest && h.db.nextLoan == db.nextLoan
  {
    if pk !in db.books then Handled(Http404, db)
    else
      var removed := set r | r in db.requests && db.requests[r].book == pk;
      var requests := map r | r in db.requests && r !in removed :: db.requests[r];
      var loans := map l | l in db.loans && db.loans[l].book != pk && db.loans[l].request !in removed :: db.loans[l];
      Handled(Success, db.(books := db.books - {pk}, requests := requests, loans := loans))
  }

  /** `request_book`: a new pending request, unless the book is out of stock or the user
      already has an open request for it. No role is checked. */
  function RequestBook(db: Db, actor: User, pk: Id, now: Time): (h: Handled)
    ensures h.resp == Http404 <==> pk !in db.books
    ensures h.resp == NotAvailable <==> pk in db.books && db.books[pk].availableCopies == 0
    ensures h.resp == AlreadyRequested <==>
      pk in db.books && db.books[pk].availableCopies > 0 && HasOpenRequest(db.requests, actor.id, pk)
    ensures h.resp == Success <==>
      pk in db.books && db.books[pk].availableCopies > 0 && !HasOpenRequest(db.requests, actor.id, pk)
    ensures h.resp != Success ==> h.db == db
    ensures FreshIds(db) && h.resp == Success ==> db.nextRequest !in db.requests
    ensures h.resp == Success ==>
      && h.db.requests.Keys == db.requests.Keys + {db.nextRequest}
      && h.db.requests[db.nextRequest] == BookRequest(actor.id, pk, now, Pending, None, None)
      && (forall r :: r in db.requests && r != db.nextRequest ==> h.db.requests[r] == db.requests[r])
      && h.db == db.(requests := h.db.requests, nextRequest := db.nextRequest + 1)
  {
    if pk !in db.books then Handled(Http404, db)
    else if db.books[pk].availableCopies > 0 then
      if HasOpenRequest(db.requests, actor.id, pk) then Handled(AlreadyRequested, db)
      else
        var req := BookRequest(actor.id, pk, now, Pending, None, None);
        Handled(Success, db.(requests := db.requests[db.nextRequest := req], nextRequest := db.nextRequest + 1))
    else Handled(NotAvailable, db)
  }

  /** `approve_request`: a librarian moves a pending request to approved and stamps it. */
  function ApproveRequest(db: Db, actor: User, pk: Id, now: Time): (h: Handled)
    ensures h.resp == LoginRedirect <==> !IsLibrarian(actor)
    ensures h.resp == Http404 <==> IsLibrarian(actor) && !HasRequestIn(db, pk, Pending)
    ensures h.resp == Success <==> IsLibrarian(actor) && HasRequestIn(db, pk, Pending)
    ensures h.resp != Success ==> h.db == db
    ensures h.resp == Success ==>
      && h.db == db.(requests := h.db.requests)
      && h.db.requests.Keys == db.requests.Keys
      && (forall r :: r in db.requests && r != pk ==> h.db.requests[r] == db.requests[r])
      && h.db.requests[pk] == db.requests[pk].(status := Approved, approvalDate := Some(now), approvedBy := Some(actor.id))
  {
    if !IsLibrarian(actor) then Handled(LoginRedirect, db)
    else if !HasRequestIn(db, pk, Pending) then Handled(Http404, db)
    else
      var req := db.requests[pk].(status := Approved, approvalDate := Some(now), approvedBy := Some(actor.id));
      Handled(Success, db.(requests := db.requests[pk := req]))
  }

  /** `reject_request`: a librarian moves a pending request to rejected and stamps it. */
  function RejectRequest(db: Db, actor: User, pk: Id, now: Time): (h: Handled)
    ensures h.resp == LoginRedirect <==> !IsLibrarian(actor)
    ensures h.resp == Http404 <==> IsLibrarian(actor) && !HasRequestIn(db, pk, Pending)
    ensures h.resp == Success <==> IsLibrarian(actor) && HasRequestIn(db, pk, Pending)
    ensures h.resp != Success ==> h.db == db
    ensures h.resp == Success ==>
      && h.db == db.(requests := h.db.requests)
      && h.db.requests.Keys == db.requests.Keys
      && (forall r :: r in db.requests && r != pk ==> h.db.requests[r] == db.requests[r])
      && h.db.requests[pk] == db.requests[pk].(status := Rejected, approvalDate := Some(now), approvedBy := Some(actor.id))
  {
    if !IsLibrarian(actor) then Handled(LoginRedirect, db)
    else if !HasRequestIn(db, pk, Pending) then Handled(Http404, db)
    else
      var req := db.requests[pk].(status := Rejected, approvalDate := Some(now), approvedBy := Some(actor.id));
      Handled(Success, db.(requests := db.requests[pk := req]))
  }

  /** `issue_book`: for an approved request whose book has a copy left, one new loan due
      a loan period from now, one copy fewer, and the request marked issued. */
  function IssueBook(db: Db, actor: User, pk: Id, now: Time): (h: Handled)
    requires Inv(db)
    ensures h.resp == LoginRedirect <==> !IsLibrarian(actor)
    ensures h.resp == Http404 <==> IsLibrarian(actor) && !HasRequestIn(db, pk, Approved)
    ensures h.resp == NotAvailable <==>
      IsLibrarian(actor) && HasRequestIn(db, pk, Approved) && db.books[db.requests[pk].book].availableCopies == 0
    ensures h.resp == Success <==>
      IsLibrarian(actor) && HasRequestIn(db, pk, Approved) && db.books[db.requests[pk].book].availableCopies > 0
    ensures h.resp != Success ==> h.db == db
    ensures h.resp == Success ==>
      var req := db.requests[pk];
      && db.nextLoan !in db.loans
      && h.db.loans.Keys == db.loans.Keys + {db.nextLoan}
      && h.db.loans[db.nextLoan] == IssuedBook(req.student, req.book, pk, now, Some(now + LoanPeriod), None)
      && (forall l :: l in db.loans ==> h.db.loans[l] == db.loans[l])
      && h.db.books.Keys == db.books.Keys
      && h.db.books[req.book].availableCopies == db.books[req.book].availableCopies - 1
      && h.db.books[req.book] == db.books[req.book].(availableCopies := h.db.books[req.book].availableCopies)
      && (forall b :: b in db.books && b != req.book ==> h.db.books[b] == db.books[b])
      && h.db.requests == db.requests[pk := req.(status := Issued)]
      && h.db.nextLoan == db.nextLoan + 1
      && h.db.nextBook == db.nextBook && h.db.nextRequest == db.nextRequest
  {
    if !IsLibrarian(actor) then Handled(LoginRedirect, db)
    else if !HasRequestIn(db, pk, Approved) then Handled(Http404, db)
    else
      var req := db.requests[pk];
      var book := db.books[req.book];
      if book.availableCopies > 0 then
        var loan := IssuedBook(req.student, req.book, pk, now, Some(now + LoanPeriod), None);
        var saved := Clamped(book.(availableCopies := book.availableCopies - 1));
        Handled(Success, db.(loans := db.loans[db.nextLoan := loan], nextLoan := db.nextLoan + 1,
                             books := db.books[req.book := saved],
                             requests := db.requests[pk := req.(status := Issued)]))
      else Handled(NotAvailable, db)
  }

  /** `return_book`: an outstanding loan gets its return date and its book one copy back,
      capped at the total by `Book.save`. */
  function ReturnBook(db: Db, actor: User, pk: Id, now: Time): (h: Handled)
    requires Inv(db)
    ensures h.resp == LoginRedirect <==> !IsLibrarian(actor)
    ensures h.resp == Http404 <==> IsLibrarian(actor) && !OnLoan(db, pk)
    ensures h.resp == Success <==> IsLibrarian(actor) && OnLoan(db, pk)
    ensures h.resp != Success ==> h.db == db
    ensures h.resp == Success ==>
      var loan := db.loans[pk];
      && loan.book in db.books
      && h.db.loans == db.loans[pk := loan.(returnDate := Some(now))]
      && h.db.books.Keys == db.books.Keys
      && h.db.books[loan.book].availableCopies == Min(db.books[loan.book].availableCopies + 1, db.books[loan.book].totalCopies)
      && h.db.books[loan.book] == db.books[loan.book].(availableCopies := h.db.books[loan.book].availableCopies)
      && (forall b :: b in db.books && b != loan.book ==> h.db.books[b] == db.books[b])
      && h.db == db.(books := h.db.books, loans := h.db.loans)
  {
    if !IsLibrarian(actor) then Handled(LoginRedirect, db)
    else if !OnLoan(db, pk) then Handled(Http404, db)
    else
      var loan := db.loans[pk];
      var book := db.books[loan.book];
      var saved := Clamped(book.(availableCopies := book.availableCopies + 1));
      Handled(Success, db.(loans := db.loans[pk := loan.(returnDate := Some(now))],
                           books := db.books[loan.book := saved]))
  }

  // ---------------------------------------------------------------------------
  // Dispatch: one HTTP request to one of the handlers above
  // ---------------------------------------------------------------------------

  datatype Action =
    | Add(title: string, author: string, totalCopies: int)
    | Update(book: Id, title: string, author: string, totalCopies: int)
    | Delete(book: Id)
    | Request(book: Id)
    | Approve(request: Id)
    | Reject(request: Id)
    | Issue(request: Id)
    | Return(loan: Id)

  /** A request from an authenticated user at a given time. */
  datatype Event = Event(actor: User, action: Action, now: Time)

  /** Whatever is asked, a refused request writes nothing and no id is handed out twice;
      only the four librarian handlers, and only for a non-librarian, answer with the login
      redirect. */
  function Step(db: Db, e: Event): (h: Handled)
    requires Inv(db)
    ensures h.resp != Success ==> h.db == db
    ensures db.nextBook <= h.db.nextBook && db.nextRequest <= h.db.nextRequest && db.nextLoan <= h.db.nextLoan
    ensures h.resp == LoginRedirect <==>
      !IsLibrarian(e.actor) && (e.action.Approve? || e.action.Reject? || e.action.Issue? || e.action.Return?)
  {
    match e.action
    case Add(title, author, total) => AddBook(db, title, author, total)
    case Update(pk, title, author, total) => UpdateBook(db, pk, title, author, total)
    case Delete(pk) => DeleteBook(db, pk)
    case Request(pk) => RequestBook(db, e.actor, pk, e.now)
    case Approve(pk) => ApproveRequest(db, e.actor, pk, e.now)
    case Reject(pk) => RejectRequest(db, e.actor, pk, e.now)
    case Issue(pk) => IssueBook(db, e.actor, pk, e.now)
    case Return(pk) => ReturnBook(db, e.actor, pk, e.now)
  }
}

/** The state-changing handlers of library/views.py as they run: a `Library` object holds
    the three tables and each handler updates them field by field, the way the view reads
    a row, changes its attributes and saves it. Each method is proved to do exactly what
    the corresponding Workflow function specifies, and to keep the database consistent. */
module Views {
  import opened Models
  import opened Workflow
  import opened Invariants

  class Library {
    var books: map<Id, Book>
    var requests: map<Id, BookRequest>
    var loans: map<Id, IssuedBook>
    var nextBook: Id
    var nextRequest: Id
    var nextLoan: Id

    /** The tables as a value. */
    function State(): (db: Db)
      reads this
    {
      Db(books, requests, loans, nextBook, nextRequest, nextLoan)
    }

    ghost predicate Valid()
      reads this
    {
      Inv(State())
    }

    /** A freshly migrated database. */
    constructor ()
      ensures Valid() && State() == Empty
    {
      books, requests, loans := map[], map[], map[];
      nextBook, nextRequest, nextLoan := 1, 1, 1;
    }

    /** `Book.save`: cap the available copies at the total, then write the row. */
    method SaveBook(pk: Id, book: Book)
      modifies this`books
      ensures books == old(books)[pk := Clamped(book)]
    {
      var row := book;
      if row.availableCopies > row.totalCopies {
        row := row.(availableCopies := row.totalCopies);
      }
      books := books[pk := row];
    }

    /** `add_book` (POST). A negative total fails the column's CHECK constraint. */
    method AddBook(title: string, author: string, totalCopies: int) returns (resp: Response)
      requires Valid()
      modifies this
      ensures Valid()
      ensures Handled(resp, State()) == Workflow.AddBook(old(State()), title, author, totalCopies)
    {
      AddBookKeepsInv(State(), title, author, totalCopies);
      if totalCopies < 0 {
        return IntegrityError;
      }
      SaveBook(nextBook, Book(title, author, totalCopies, totalCopies));
      nextBook := nextBook + 1;
      resp := Success;
    }

    /** `update_book` (POST). */
    method UpdateBook(pk: Id, title: string, author: string, totalCopies: int) returns (resp: Response)
      requires Valid()
      modifies this
      ensures Valid()
      ensures Handled(resp, State()) == Workflow.UpdateBook(old(State()), pk, title, author, totalCopies)
    {
      UpdateBookKeepsInv(State(), pk, title, author, totalCopies);
      if pk !in books {
        return Http404;
      }
      if totalCopies < 0 {
        return IntegrityError;
      }
      var book := books[pk];
      book := book.(title := title);
      book := book.(author := author);
      book := book.(totalCopies := totalCopies);
      SaveBook(pk, book);
      resp := Success;
    }

    /** `delete_book`, with the rows the database cascades to. */
    method DeleteBook(pk: Id) returns (resp: Response)
      requires Valid()
      modifies this
      ensures Valid()
      ensures Handled(resp, State()) == Workflow.DeleteBook(old(State()), pk)
    {
      ghost var before := State();
      if pk !in books {
        return Http404;
      }
      var removed := set r | r in requests && requests[r].book == pk;
      loans := map l | l in loans && loans[l].book != pk && loans[l].request !in removed :: loans[l];
      requests := map r | r in requests && r !in removed :: requests[r];
      books := books - {pk};
      resp := Success;
      DeleteBookKeepsInv(before, pk);
    }

    /** `request_book`. */
    method RequestBook(actor: User, pk: Id, now: Time) returns (resp: Response)
      requires Valid()
      modifies this
      ensures Valid()
      ensures Handled(resp, State()) == Workflow.RequestBook(old(State()), actor, pk, now)
    {
      RequestBookKeepsInv(State(), actor, pk, now);
      if pk !in books {
        return Http404;
      }
      var book := books[pk];
      if book.availableCopies > 0 {
        var existingRequest := HasOpenRequest(requests, actor.id, pk);
        if existingRequest {
          resp := AlreadyRequested;
        } else {
          requests := requests[nextRequest := BookRequest(actor.id, pk, now, Pending, None, None)];
          nextRequest := nextRequest + 1;
          resp := Success;
        }
      } else {
        resp := NotAvailable;
      }
    }

    /** `approve_request`. */
    method ApproveRequest(actor: User, pk: Id, now: Time) returns (resp: Response)
      requires Valid()
      modifies this
      ensures Valid()
      ensures Handled(resp, State()) == Workflow.ApproveRequest(old(State()), actor, pk, now)
    {
      ApproveRequestKeepsInv(State(), actor, pk, now);
      if !IsLibrarian(actor) {
        return LoginRedirect;
      }
      if !HasRequestIn(State(), pk, Pending) {
        return Http404;
      }
      var bookRequest := requests[pk];
      bookRequest := bookRequest.(status := Approved);
      bookRequest := bookRequest.(approvalDate := Some(now));
      bookRequest := bookRequest.(approvedBy := Some(actor.id));
      requests := requests[pk := bookRequest];
      resp := Success;
    }

    /** `reject_request`. */
    method RejectRequest(actor: User, pk: Id, now: Time) returns (resp: Response)
      requires Valid()
      modifies this
      ensures Valid()
      ensures Handled(resp, State()) == Workflow.RejectRequest(old(State()), actor, pk, now)
    {
      RejectRequestKeepsInv(State(), actor, pk, now);
      if !IsLibrarian(actor) {
        return LoginRedirect;
      }
      if !HasRequestIn(State(), pk, Pending) {
        return Http404;
      }
      var bookRequest := requests[pk];
      bookRequest := bookRequest.(status := Rejected);
      bookRequest := bookRequest.(approvalDate := Some(now));
      bookRequest := bookRequest.(approvedBy := Some(actor.id));
      requests := requests[pk := bookRequest];
      resp := Success;
    }

    /** `issue_book`: create the loan, take a copy off the shelf, mark the request issued. */
    method IssueBook(actor: User, pk: Id, now: Time) returns (resp: Response)
      requires Valid()
      modifies this
      ensures Valid()
      ensures Handled(resp, State()) == Workflow.IssueBook(old(State()), actor, pk, now)
    {
      ghost var before := State();
      IssueBookKeepsInv(before, actor, pk, now);
      if !IsLibrarian(actor) {
        return LoginRedirect;
      }
      if !HasRequestIn(State(), pk, Approved) {
        return Http404;
      }
      var bookRequest := requests[pk];
      var book := books[bookRequest.book];
      if book.availableCopies > 0 {
        var dueDate := now + LoanPeriod;
        loans := loans[nextLoan := IssuedBook(bookRequest.student, bookRequest.book, pk, now, Some(dueDate), None)];
        nextLoan := nextLoan + 1;
        book := book.(availableCopies := book.availableCopies - 1);
        SaveBook(bookRequest.book, book);
        bookRequest := bookRequest.(status := Issued);
        requests := requests[pk := bookRequest];
        resp := Success;
        assert State() == Workflow.IssueBook(before, actor, pk, now).db;
      } else {
        resp := NotAvailable;
      }
    }

    /** `return_book`: close the loan, put a copy back on the shelf. */
    method ReturnBook(actor: User, pk: Id, now: Time) returns (resp: Response)
      requires Valid()
      modifies this
      ensures Valid()
      ensures Handled(resp, State()) == Workflow.ReturnBook(old(State()), actor, pk, now)
    {
      ghost var before := State();
      ReturnBookKeepsInv(before, actor, pk, now);
      if !IsLibrarian(actor) {
        return LoginRedirect;
      }
      if !OnLoan(State(), pk) {
        return Http404;
      }
      var issuedBook := loans[pk];
      issuedBook := issuedBook.(returnDate := Some(now));
      loans := loans[pk := issuedBook];
      var book := books[issuedBook.book];
      book := book.(availableCopies := book.availableCopies + 1);
      SaveBook(issuedBook.book, book);
      resp := Success;
      assert State() == Workflow.ReturnBook(before, actor, pk, now).db;
    }
  }
}

/** Copy counts. Every handler keeps 0 <= available_copies <= total_copies (Workflow.Inv).
    The stronger law "available copies plus copies out on loan equals the total" is kept
    by every handler except `update_book`, which sets the total without touching the
    available count. */
module Stock {
  import opened Models
  import opened Workflow
  import opened Invariants

  /** The loans of book `b` that have not been returned. */
  function ActiveLoans(loans: map<Id, IssuedBook>, b: Id): (out: set<Id>) {
    set l | l in loans && loans[l].book == b && loans[l].returnDate.None?
  }

  /** Every copy of every book is either on the shelf or out on exactly one loan. */
  ghost predicate Conserved(db: Db) {
    forall b :: b in db.books ==> db.books[b].availableCopies + |ActiveLoans(db.loans, b)| == db.books[b].totalCopies
  }

  lemma EmptyIsConserved()
    ensures Conserved(Empty)
  {
  }

  /** A conserving database never has more copies of a book out than it owns. */
  lemma NeverOverIssued(db: Db, b: Id)
    requires Conserved(db) && b in db.books
    ensures |ActiveLoans(db.loans, b)| <= db.books[b].totalCopies
    ensures db.books[b].availableCopies <= db.books[b].totalCopies
  {
  }

  lemma AddBookConserves(db: Db, title: string, author: string, totalCopies: int)
    requires Inv(db) && Conserved(db)
    ensures Conserved(AddBook(db, title, author, totalCopies).db)
  {
    var h := AddBook(db, title, author, totalCopies);
    if h.resp == Success {
      assert ActiveLoans(h.db.loans, db.nextBook) == {} by {
        forall l | l in db.loans ensures db.loans[l].book != db.nextBook {
          assert db.loans[l].book in db.books;
        }
      }
    }
  }

  lemma DeleteBookConserves(db: Db, pk: Id)
    requires Inv(db) && Conserved(db)
    ensures Conserved(DeleteBook(db, pk).db)
  {
    var h := DeleteBook(db, pk);
    if h.resp == Success {
      forall b | b in h.db.books
        ensures ActiveLoans(h.db.loans, b) == ActiveLoans(db.loans, b)
      {
        forall l | l in ActiveLoans(db.loans, b) ensures l in h.db.loans {
          assert LoanMatches(db, db.loans[l]);
        }
      }
    }
  }

  /** Requests, approvals and rejections touch neither books nor loans. */
  lemma RequestsConserve(db: Db, actor: User, pk: Id, now: Time)
    requires Inv(db) && Conserved(db)
    ensures Conserved(RequestBook(db, actor, pk, now).db)
    ensures Conserved(ApproveRequest(db, actor, pk, now).db)
    ensures Conserved(RejectRequest(db, actor, pk, now).db)
  {
  }

  /** A new open loan of `b` adds itself to the loans of `b` that are out. */
  lemma ActiveLoansGrow(loans: map<Id, IssuedBook>, k: Id, loan: IssuedBook, b: Id)
    requires k !in loans && loan.returnDate.None?
    ensures |ActiveLoans(loans[k := loan], b)| == |ActiveLoans(loans, b)| + (if loan.book == b then 1 else 0)
  {
    if loan.book == b {
      assert ActiveLoans(loans[k := loan], b) == ActiveLoans(loans, b) + {k};
    } else {
      assert ActiveLoans(loans[k := loan], b) == ActiveLoans(loans, b);
    }
  }

  /** Closing an open loan of `b` removes it from the loans of `b` that are out. */
  lemma ActiveLoansShrink(loans: map<Id, IssuedBook>, k: Id, now: Time, b: Id)
    requires k in loans && loans[k].returnDate.None?
    ensures |ActiveLoans(loans[k := loans[k].(returnDate := Some(now))], b)| + (if loans[k].book == b then 1 else 0)
            == |ActiveLoans(loans, b)|
  {
    if loans[k].book == b {
      assert ActiveLoans(loans[k := loans[k].(returnDate := Some(now))], b) == ActiveLoans(loans, b) - {k};
    } else {
      assert ActiveLoans(loans[k := loans[k].(returnDate := Some(now))], b) == ActiveLoans(loans, b);
    }
  }

  /** Issuing moves one copy from the shelf to a new loan. */
  lemma IssueBookConserves(db: Db, actor: User, pk: Id, now: Time)
    requires Inv(db) && Conserved(db)
    ensures Conserved(IssueBook(db, actor, pk, now).db)
  {
    var h := IssueBook(db, actor, pk, now);
    if h.resp == Success {
      var req := db.requests[pk];
      var loan := IssuedBook(req.student, req.book, pk, now, Some(now + LoanPeriod), None);
      assert h.db.loans == db.loans[db.nextLoan := loan];
      forall b | b in h.db.books
        ensures h.db.books[b].availableCopies + |ActiveLoans(h.db.loans, b)| == h.db.books[b].totalCopies
      {
        ActiveLoansGrow(db.loans, db.nextLoan, loan, b);
      }
    }
  }

  /** Returning moves one copy from its loan back to the shelf; the cap in `Book.save`
      never cuts the increment short in a conserving database. */
  lemma ReturnBookConserves(db: Db, actor: User, pk: Id, now: Time)
    requires Inv(db) && Conserved(db)
    ensures Conserved(ReturnBook(db, actor, pk, now).db)
    ensures ReturnBook(db, actor, pk, now).resp == Success ==>
      var b := db.loans[pk].book;
      ReturnBook(db, actor, pk, now).db.books[b].availableCopies == db.books[b].availableCopies + 1
  {
    var h := ReturnBook(db, actor, pk, now);
    if h.resp == Success {
      forall b | b in h.db.books
        ensures h.db.books[b].availableCopies + |ActiveLoans(h.db.loans, b)| == h.db.books[b].totalCopies
      {
        ActiveLoansShrink(db.loans, pk, now, b);
      }
      var b := db.loans[pk].book;
      assert {pk} <= ActiveLoans(db.loans, b);
      assert |ActiveLoans(db.loans, b)| >= 1;
    }
  }

  lemma StepConserves(db: Db, e: Event)
    requires Inv(db) && Conserved(db)
    requires !e.action.Update?
    ensures Conserved(Step(db, e).db)
  {
    match e.action
    case Add(title, author, total) => AddBookConserves(db, title, author, total);
    case Delete(pk) => DeleteBookConserves(db, pk);
    case Request(pk) => RequestsConserve(db, e.actor, pk, e.now);
    case Approve(pk) => RequestsConserve(db, e.actor, pk, e.now);
    case Reject(pk) => RequestsConserve(db, e.actor, pk, e.now);
    case Issue(pk) => IssueBookConserves(db, e.actor, pk, e.now);
    case Return(pk) => ReturnBookConserves(db, e.actor, pk, e.now);
  }

  /** From a freshly migrated database, a run without a book update never has more copies
      of a book out on loan than the book has. */
  lemma FreshRunNeverOverIssues(events: seq<Event>, b: Id)
    requires forall i :: 0 <= i < |events| ==> !events[i].action.Update?
    ensures b in Run(Empty, events).books ==>
      |ActiveLoans(Run(Empty, events).loans, b)| <= Run(Empty, events).books[b].totalCopies
  {
    EmptyIsConserved();
    RunConserves(Empty, events);
    if b in Run(Empty, events).books {
      NeverOverIssued(Run(Empty, events), b);
    }
  }

  /** Any sequence of handled requests without a book update keeps every copy accounted for. */
  lemma {:induction false} RunConserves(db: Db, events: seq<Event>)
    requires Inv(db) && Conserved(db)
    requires forall i :: 0 <= i < |events| ==> !events[i].action.Update?
    ensures Conserved(Run(db, events))
    decreases |events|
  {
    if events != [] {
      StepKeepsInv(db, events[0]);
      StepConserves(db, events[0]);
      RunConserves(Step(db, events[0]).db, events[1..]);
    }
  }

  /** Raising a book's total leaves the new copies unavailable for ever: the total goes
      from 1 to 2 while one copy stays available and none is out. */
  lemma UpdateBookCanBreakConservation()
    ensures var db := Empty.(books := map[1 := Book("T", "A", 1, 1)], nextBook := 2);
      && Inv(db) && Conserved(db)
      && UpdateBook(db, 1, "T", "A", 2).resp == Success
      && !Conserved(UpdateBook(db, 1, "T", "A", 2).db)
  {
    var db := Empty.(books := map[1 := Book("T", "A", 1, 1)], nextBook := 2);
    assert ActiveLoans(db.loans, 1) == {};
    var d := UpdateBook(db, 1, "T", "A", 2).db;
    assert ActiveLoans(d.loans, 1) == {};
  }

  /** A two-copy book with both copies out, each on the loan of its own issued request. */
  function BothCopiesOut(): (db: Db) {
    Empty.(
      books := map[1 := Book("T", "A", 2, 0)],
      requests := map[1 := BookRequest(7, 1, 0, Issued, Some(0), Some(9)),
                      2 := BookRequest(8, 1, 0, Issued, Some(0), Some(9))],
      loans := map[1 := IssuedBook(7, 1, 1, 0, Some(LoanPeriod), None),
                   2 := IssuedBook(8, 1, 2, 0, Some(LoanPeriod), None)],
      nextBook := 2, nextRequest := 3, nextLoan := 3)
  }

  lemma BothCopiesOutIsConsistent()
    ensures Inv(BothCopiesOut())
  {
    var db := BothCopiesOut();
    forall l | l in db.loans ensures db.loans[l].request == l && LoanMatches(db, db.loans[l]) {
    }
    forall r | r in db.requests ensures db.requests[r].status == Issued && r in db.loans {
    }
  }

  lemma BothCopiesOutIsConserved()
    ensures Conserved(BothCopiesOut())
  {
    var db := BothCopiesOut();
    assert ActiveLoans(db.loans, 1) == {1, 2};
  }

  /** Lowering a book's total below the copies out leaves more open loans than copies, in a
      database that is still consistent: both copies of a two-copy book are out and the total
      drops to 1. */
  lemma UpdateBookCanOverIssue()
    ensures Inv(BothCopiesOut()) && Conserved(BothCopiesOut())
    ensures var h := UpdateBook(BothCopiesOut(), 1, "T", "A", 1);
      && h.resp == Success && Inv(h.db)
      && |ActiveLoans(h.db.loans, 1)| == 2 > h.db.books[1].totalCopies
  {
    BothCopiesOutIsConsistent();
    BothCopiesOutIsConserved();
    UpdateBookKeepsInv(BothCopiesOut(), 1, "T", "A", 1);
    var h := UpdateBook(BothCopiesOut(), 1, "T", "A", 1);
    assert ActiveLoans(h.db.loans, 1) == {1, 2};
  }

  /** Issuing a request and returning its loan puts every book's stock back as it was. */
  lemma IssueThenReturnRestoresStock(db: Db, librarian: User, pk: Id, t1: Time, t2: Time)
    requires Inv(db)
    requires IssueBook(db, librarian, pk, t1).resp == Success
    ensures Inv(IssueBook(db, librarian, pk, t1).db)
    ensures var d1 := IssueBook(db, librarian, pk, t1).db;
      var d2 := ReturnBook(d1, librarian, db.nextLoan, t2);
      && d2.resp == Success
      && d2.db.books == db.books
      && d2.db.requests[pk].status == Issued
      && d2.db.loans[db.nextLoan].returnDate == Some(t2)
  {
    IssueBookKeepsInv(db, librarian, pk, t1);
    var d1 := IssueBook(db, librarian, pk, t1).db;
    var d2 := ReturnBook(d1, librarian, db.nextLoan, t2);
    var b := db.requests[pk].book;
    assert d2.db.books[b] == db.books[b];
    assert d2.db.books == db.books;
  }

  /** A book with two copies: a student asks, a librarian approves and issues (one copy
      left, a loan due in 14 days), then takes the copy back (two copies again). */
  lemma TwoCopyScenario(student: Id, librarian: Id)
    ensures
      var lib := User(librarian, Librarian);
      var d0 := Empty.(books := map[1 := Book("T", "A", 2, 2)], nextBook := 2);
      var h1 := RequestBook(d0, User(student, Student), 1, 10);
      var h2 := ApproveRequest(h1.db, lib, 1, 11);
      && h1.resp == Success && h2.resp == Success && Inv(h2.db)
      && (var h3 := IssueBook(h2.db, lib, 1, 12);
          && h3.resp == Success && Inv(h3.db)
          && h3.db.books[1].availableCopies == 1
          && h3.db.requests[1].status == Issued
          && h3.db.loans[1].dueDate == Some(12 + LoanPeriod)
          && (var h4 := ReturnBook(h3.db, lib, 1, 20);
              && h4.resp == Success
              && h4.db.books[1].availableCopies == 2
              && h4.db.loans[1].returnDate == Some(20)))
  {
    var lib := User(librarian, Librarian);
    var d0 := Empty.(books := map[1 := Book("T", "A", 2, 2)], nextBook := 2);
    assert Inv(d0);
    var h1 := RequestBook(d0, User(student, Student), 1, 10);
    assert !HasOpenRequest(d0.requests, student, 1);
    RequestBookKeepsInv(d0, User(student, Student), 1, 10);
    var h2 := ApproveRequest(h1.db, lib, 1, 11);
    ApproveRequestKeepsInv(h1.db, lib, 1, 11);
    var h3 := IssueBook(h2.db, lib, 1, 12);
    IssueBookKeepsInv(h2.db, lib, 1, 12);
  }

  /** A book with no copy left cannot be requested. */
  lemma OutOfStockScenario(student: User)
    ensures
      var d0 := Empty.(books := map[1 := Book("T", "A", 1, 0)], nextBook := 2);
      RequestBook(d0, student, 1, 0) == Handled(NotAvailable, d0)
  {
  }
}

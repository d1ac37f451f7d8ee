/** Every handler keeps the database consistent (Workflow.Inv), and so does any sequence
    of handled requests starting from an empty database. */
module Invariants {
  import opened Models
  import opened Workflow

  lemma EmptyIsConsistent()
    ensures Inv(Empty)
  {
  }

  /** In a consistent database a loan's book still exists and its request is no longer
      pending or approved, so the loan `issue_book` creates for an approved request never
      meets another loan of that request on the one-to-one key. */
  lemma LoansPointAtClosedRequests(db: Db, l: Id)
    requires Inv(db) && l in db.loans
    ensures db.loans[l].book in db.books
    ensures db.loans[l].request in db.requests && !IsOpen(db.requests[db.loans[l].request].status)
    ensures forall r :: HasRequestIn(db, r, Approved) ==> db.loans[l].request != r
  {
  }

  lemma AddBookKeepsInv(db: Db, title: string, author: string, totalCopies: int)
    requires Inv(db)
    ensures Inv(AddBook(db, title, author, totalCopies).db)
  {
  }

  lemma UpdateBookKeepsInv(db: Db, pk: Id, title: string, author: string, totalCopies: int)
    requires Inv(db)
    ensures Inv(UpdateBook(db, pk, title, author, totalCopies).db)
  {
  }

  lemma DeleteBookKeepsInv(db: Db, pk: Id)
    requires Inv(db)
    ensures Inv(DeleteBook(db, pk).db)
  {
  }

  lemma RequestBookKeepsInv(db: Db, actor: User, pk: Id, now: Time)
    requires Inv(db)
    ensures Inv(RequestBook(db, actor, pk, now).db)
  {
  }

  lemma ApproveRequestKeepsInv(db: Db, actor: User, pk: Id, now: Time)
    requires Inv(db)
    ensures Inv(ApproveRequest(db, actor, pk, now).db)
  {
  }

  lemma RejectRequestKeepsInv(db: Db, actor: User, pk: Id, now: Time)
    requires Inv(db)
    ensures Inv(RejectRequest(db, actor, pk, now).db)
  {
  }

  /** The loan constraints after a successful issue: the new loan is the approved request's
      only one, and every older loan still matches its (unchanged or now issued) request. */
  lemma IssueBookKeepsLoans(db: Db, actor: User, pk: Id, now: Time)
    requires Inv(db) && IssueBook(db, actor, pk, now).resp == Success
    ensures var d := IssueBook(db, actor, pk, now).db;
      LoansResolve(d) && IssuedHaveLoans(d) && OneLoanPerRequest(d)
  {
    var d, k := IssueBook(db, actor, pk, now).db, db.nextLoan;
    forall l | l in db.loans ensures db.loans[l].request != pk {
      assert LoanMatches(db, db.loans[l]);
    }
    assert LoansResolve(d) by {
      forall l | l in d.loans ensures LoanMatches(d, d.loans[l]) {
        if l != k {
          assert LoanMatches(db, db.loans[l]);
        }
      }
    }
    assert IssuedHaveLoans(d) by {
      forall r | r in d.requests && d.requests[r].status == Issued
        ensures exists l :: l in d.loans && d.loans[l].request == r
      {
        if r == pk {
          assert d.loans[k].request == r;
        } else {
          var l :| l in db.loans && db.loans[l].request == r;
          assert d.loans[l].request == r;
        }
      }
    }
  }

  lemma IssueBookKeepsInv(db: Db, actor: User, pk: Id, now: Time)
    requires Inv(db)
    ensures Inv(IssueBook(db, actor, pk, now).db)
  {
    if IssueBook(db, actor, pk, now).resp == Success {
      IssueBookKeepsLoans(db, actor, pk, now);
    }
  }

  lemma ReturnBookKeepsInv(db: Db, actor: User, pk: Id, now: Time)
    requires Inv(db)
    ensures Inv(ReturnBook(db, actor, pk, now).db)
  {
    if ReturnBook(db, actor, pk, now).resp == Success {
      ReturnBookKeepsLoans(db, actor, pk, now);
    }
  }

  /** The loan constraints after a successful return: requests are untouched and every loan
      keeps its request, so each issued request still has its loan. */
  lemma ReturnBookKeepsLoans(db: Db, actor: User, pk: Id, now: Time)
    requires Inv(db) && ReturnBook(db, actor, pk, now).resp == Success
    ensures var d := ReturnBook(db, actor, pk, now).db;
      LoansResolve(d) && IssuedHaveLoans(d) && OneLoanPerRequest(d)
  {
    var d := ReturnBook(db, actor, pk, now).db;
    forall r | r in d.requests && d.requests[r].status == Issued
      ensures exists l :: l in d.loans && d.loans[l].request == r
    {
      var l :| l in db.loans && db.loans[l].request == r;
      assert d.loans[l].request == r;
    }
  }

  lemma StepKeepsInv(db: Db, e: Event)
    requires Inv(db)
    ensures Inv(Step(db, e).db)
  {
    match e.action
    case Add(title, author, total) => AddBookKeepsInv(db, title, author, total);
    case Update(pk, title, author, total) => UpdateBookKeepsInv(db, pk, title, author, total);
    case Delete(pk) => DeleteBookKeepsInv(db, pk);
    case Request(pk) => RequestBookKeepsInv(db, e.actor, pk, e.now);
    case Approve(pk) => ApproveRequestKeepsInv(db, e.actor, pk, e.now);
    case Reject(pk) => RejectRequestKeepsInv(db, e.actor, pk, e.now);
    case Issue(pk) => IssueBookKeepsInv(db, e.actor, pk, e.now);
    case Return(pk) => ReturnBookKeepsInv(db, e.actor, pk, e.now);
  }

  /** The database after handling `events` in order, one at a time. */
  function Run(db: Db, events: seq<Event>): (d: Db)
    requires Inv(db)
    ensures Inv(d)
    decreases |events|
  {
    if events == [] then db
    else
      StepKeepsInv(db, events[0]);
      Run(Step(db, events[0]).db, events[1..])
  }
}

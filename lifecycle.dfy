/** The request state machine and the life of a loan: what one handled request may do to
    existing rows, what any sequence of them may do, and the at-most-once guarantees. */
module Lifecycle {
  import opened Models
  import opened Workflow
  import opened Invariants

  // ---------------------------------------------------------------------------
  // One handled request
  // ---------------------------------------------------------------------------

  /** An existing request is untouched, or takes exactly one edge of the state machine:
      leaving pending stamps it with the acting user and the time, issuing keeps the stamp. */
  ghost predicate RequestMoves(r: BookRequest, r': BookRequest, e: Event) {
    || r' == r
    || (&& Transition(r.status, r'.status)
        && (r.status == Pending ==> r' == r.(status := r'.status, approvalDate := Some(e.now), approvedBy := Some(e.actor.id)))
        && (r.status == Approved ==> r' == r.(status := Issued)))
  }

  /** An existing loan is untouched, or an outstanding one is closed now. */
  ghost predicate LoanMoves(l: IssuedBook, l': IssuedBook, e: Event) {
    l' == l || (l.returnDate.None? && l' == l.(returnDate := Some(e.now)))
  }

  ghost predicate Moves(db: Db, db': Db, e: Event) {
    && (forall r :: r in db.requests && r in db'.requests ==> RequestMoves(db.requests[r], db'.requests[r], e))
    && (forall r, q ::
          (&& r in db.requests && r in db'.requests && q in db.requests && q in db'.requests
           && db'.requests[r] != db.requests[r] && db'.requests[q] != db.requests[q])
          ==> r == q)
    && (forall r :: r in db'.requests && r !in db.requests ==>
          r == db.nextRequest && db'.requests[r] == BookRequest(e.actor.id, db'.requests[r].book, e.now, Pending, None, None))
    && (forall l :: l in db.loans && l in db'.loans ==> LoanMoves(db.loans[l], db'.loans[l], e))
    && (forall l :: l in db'.loans && l !in db.loans ==>
          l == db.nextLoan && db'.loans[l].issueDate == e.now && db'.loans[l].returnDate.None?)
  }

  /** `add_book` touches no request and no loan. */
  lemma AddBookMoves(db: Db, e: Event)
    requires Inv(db) && e.action.Add?
    ensures Step(db, e).db.requests == db.requests && Step(db, e).db.loans == db.loans
    ensures Moves(db, Step(db, e).db, e)
  {
  }

  /** `update_book` touches no request and no loan. */
  lemma UpdateBookMoves(db: Db, e: Event)
    requires Inv(db) && e.action.Update?
    ensures Step(db, e).db.requests == db.requests && Step(db, e).db.loans == db.loans
    ensures Moves(db, Step(db, e).db, e)
  {
  }

  /** `delete_book` only removes requests and loans: every one that remains is unchanged. */
  lemma DeleteBookMoves(db: Db, e: Event)
    requires Inv(db) && e.action.Delete?
    ensures var d := Step(db, e).db;
      && (forall r :: r in d.requests ==> r in db.requests && d.requests[r] == db.requests[r])
      && (forall l :: l in d.loans ==> l in db.loans && d.loans[l] == db.loans[l])
    ensures Moves(db, Step(db, e).db, e)
  {
    assert Step(db, e) == DeleteBook(db, e.action.book);
  }

  /** `request_book` keeps every request and loan, and adds at most the actor's pending,
      unstamped request for the book, made now, at the next id. */
  lemma RequestBookMoves(db: Db, e: Event)
    requires Inv(db) && e.action.Request?
    ensures var d := Step(db, e).db;
      && d.loans == db.loans
      && (forall r :: r in db.requests ==> r in d.requests && d.requests[r] == db.requests[r])
      && (forall r :: r in d.requests && r !in db.requests ==>
            r == db.nextRequest && d.requests[r] == BookRequest(e.actor.id, e.action.book, e.now, Pending, None, None))
    ensures Moves(db, Step(db, e).db, e)
  {
  }

  /** `approve_request` keeps every loan and every request except at most the one asked
      for, which goes from pending to approved, stamped with the actor and now. */
  lemma ApproveRequestMoves(db: Db, e: Event)
    requires Inv(db) && e.action.Approve?
    ensures var d := Step(db, e).db;
      && d.loans == db.loans && d.requests.Keys == db.requests.Keys
      && (forall r :: r in db.requests ==>
            || d.requests[r] == db.requests[r]
            || (&& r == e.action.request && db.requests[r].status == Pending
                && d.requests[r] == db.requests[r].(status := Approved, approvalDate := Some(e.now), approvedBy := Some(e.actor.id))))
    ensures Moves(db, Step(db, e).db, e)
  {
  }

  /** `reject_request` keeps every loan and every request except at most the one asked
      for, which goes from pending to rejected, stamped with the actor and now. */
  lemma RejectRequestMoves(db: Db, e: Event)
    requires Inv(db) && e.action.Reject?
    ensures var d := Step(db, e).db;
      && d.loans == db.loans && d.requests.Keys == db.requests.Keys
      && (forall r :: r in db.requests ==>
            || d.requests[r] == db.requests[r]
            || (&& r == e.action.request && db.requests[r].status == Pending
                && d.requests[r] == db.requests[r].(status := Rejected, approvalDate := Some(e.now), approvedBy := Some(e.actor.id))))
    ensures Moves(db, Step(db, e).db, e)
  {
  }

  /** `issue_book` keeps every request except at most the one asked for, which goes from
      approved to issued with its stamp kept; it keeps every loan and adds at most one, open,
      issued now for that request at the next id. */
  lemma IssueBookMoves(db: Db, e: Event)
    requires Inv(db) && e.action.Issue?
    ensures var d := Step(db, e).db;
      && d.requests.Keys == db.requests.Keys
      && (forall r :: r in db.requests ==>
            || d.requests[r] == db.requests[r]
            || (&& r == e.action.request && db.requests[r].status == Approved
                && d.requests[r] == db.requests[r].(status := Issued)))
      && (forall l :: l in db.loans ==> l in d.loans && d.loans[l] == db.loans[l])
      && (forall l :: l in d.loans && l !in db.loans ==>
            && l == db.nextLoan && d.loans[l].request == e.action.request
            && d.loans[l].issueDate == e.now && d.loans[l].returnDate.None?)
    ensures Moves(db, Step(db, e).db, e)
  {
    var pk := e.action.request;
    var h := IssueBook(db, e.actor, pk, e.now);
    assert Step(db, e) == h;
    if h.resp == Success {
      // Only the issued request changes, and it was approved, hence stamped.
      assert h.db.requests == db.requests[pk := db.requests[pk].(status := Issued)];
      assert RequestMoves(db.requests[pk], h.db.requests[pk], e);
      forall l | l in db.loans && l in h.db.loans ensures LoanMoves(db.loans[l], h.db.loans[l], e) {
        assert h.db.loans[l] == db.loans[l];
      }
      assert h.db.loans.Keys == db.loans.Keys + {db.nextLoan};
    }
  }

  /** `return_book` keeps every request and every loan except at most the one asked for,
      which was open and is closed now. */
  lemma ReturnBookMoves(db: Db, e: Event)
    requires Inv(db) && e.action.Return?
    ensures var d := Step(db, e).db;
      && d.requests == db.requests && d.loans.Keys == db.loans.Keys
      && (forall l :: l in db.loans ==>
            || d.loans[l] == db.loans[l]
            || (&& l == e.action.loan && db.loans[l].returnDate.None?
                && d.loans[l] == db.loans[l].(returnDate := Some(e.now))))
    ensures Moves(db, Step(db, e).db, e)
  {
    var pk := e.action.loan;
    var h := ReturnBook(db, e.actor, pk, e.now);
    assert Step(db, e) == h;
    if h.resp == Success {
      var d := h.db;
      assert d.loans == db.loans[pk := db.loans[pk].(returnDate := Some(e.now))];
      forall l | l in db.loans ensures LoanMoves(db.loans[l], d.loans[l], e) {
        if l != pk {
          assert d.loans[l] == db.loans[l];
        }
      }
    }
  }

  /** Each handled request changes at most one existing request, and only along a legal
      edge; a request it creates is pending and unstamped; an existing loan can only be
      closed, and a loan it creates is open. */
  lemma StepMovesLegally(db: Db, e: Event)
    requires Inv(db)
    ensures Moves(db, Step(db, e).db, e)
  {
    match e.action
    case Add(_, _, _) => AddBookMoves(db, e);
    case Update(_, _, _, _) => UpdateBookMoves(db, e);
    case Delete(_) => DeleteBookMoves(db, e);
    case Request(_) => RequestBookMoves(db, e);
    case Approve(_) => ApproveRequestMoves(db, e);
    case Reject(_) => RejectRequestMoves(db, e);
    case Issue(_) => IssueBookMoves(db, e);
    case Return(_) => ReturnBookMoves(db, e);
  }

  // ---------------------------------------------------------------------------
  // Any sequence of handled requests
  // ---------------------------------------------------------------------------

  /** A request that survives keeps its student, book and date, its status only moves
      forward, and once decided its stamp never changes. */
  ghost predicate RequestFollows(r: BookRequest, r': BookRequest) {
    && r' == r.(status := r'.status, approvalDate := r'.approvalDate, approvedBy := r'.approvedBy)
    && Precedes(r.status, r'.status)
    && (r.status != Pending ==> r'.approvalDate == r.approvalDate && r'.approvedBy == r.approvedBy)
  }

  /** A loan that survives only ever gains a return date, and keeps the first one. */
  ghost predicate LoanFollows(l: IssuedBook, l': IssuedBook) {
    && l' == l.(returnDate := l'.returnDate)
    && (l.returnDate.Some? ==> l'.returnDate == l.returnDate)
  }

  /** `db'` is a later state of `db`: ids only grow, and every row of `db'` with an old id
      is an old row that has followed the rules above. */
  ghost predicate Evolves(db: Db, db': Db) {
    && db.nextBook <= db'.nextBook && db.nextRequest <= db'.nextRequest && db.nextLoan <= db'.nextLoan
    && (forall r :: r in db'.requests && r < db.nextRequest ==>
          r in db.requests && RequestFollows(db.requests[r], db'.requests[r]))
    && (forall l :: l in db'.loans && l < db.nextLoan ==>
          l in db.loans && LoanFollows(db.loans[l], db'.loans[l]))
  }

  lemma StepEvolves(db: Db, e: Event)
    requires Inv(db)
    ensures Evolves(db, Step(db, e).db)
  {
    StepMovesLegally(db, e);
  }

  lemma EvolvesTransitive(d0: Db, d1: Db, d2: Db)
    requires Evolves(d0, d1) && Evolves(d1, d2)
    ensures Evolves(d0, d2)
  {
  }

  lemma {:induction false} RunEvolves(db: Db, events: seq<Event>)
    requires Inv(db)
    ensures Evolves(db, Run(db, events))
    decreases |events|
  {
    if events == [] {
    } else {
      var next := Step(db, events[0]).db;
      StepEvolves(db, events[0]);
      StepKeepsInv(db, events[0]);
      RunEvolves(next, events[1..]);
      EvolvesTransitive(db, next, Run(next, events[1..]));
    }
  }

  /** A rejected or issued request is never changed again, whatever is handled later. */
  lemma DecidedStaysDecided(db: Db, events: seq<Event>, r: Id)
    requires Inv(db)
    requires r in db.requests && db.requests[r].status in {Rejected, Issued}
    requires r in Run(db, events).requests
    ensures Run(db, events).requests[r] == db.requests[r]
  {
    RunEvolves(db, events);
    TerminalIsFinal(db.requests[r].status, Run(db, events).requests[r].status);
  }

  /** A returned loan is never changed again: a loan is returned at most once. */
  lemma ReturnedStaysReturned(db: Db, events: seq<Event>, l: Id)
    requires Inv(db)
    requires l in db.loans && db.loans[l].returnDate.Some?
    requires l in Run(db, events).loans
    ensures Run(db, events).loans[l] == db.loans[l]
  {
    RunEvolves(db, events);
  }

  // ---------------------------------------------------------------------------
  // At most once, and only for librarians
  // ---------------------------------------------------------------------------

  /** Approving or rejecting a request that is no longer pending changes nothing. */
  lemma DecidedCannotBeDecidedAgain(db: Db, actor: User, pk: Id, now: Time)
    requires pk in db.requests && db.requests[pk].status != Pending
    ensures ApproveRequest(db, actor, pk, now).db == db && ApproveRequest(db, actor, pk, now).resp != Success
    ensures RejectRequest(db, actor, pk, now).db == db && RejectRequest(db, actor, pk, now).resp != Success
  {
  }

  /** Issuing the same request a second time answers 404 and changes nothing. */
  lemma IssueAtMostOnce(db: Db, actor: User, pk: Id, t1: Time, t2: Time)
    requires Inv(db)
    requires IssueBook(db, actor, pk, t1).resp == Success
    ensures Inv(IssueBook(db, actor, pk, t1).db)
    ensures var d := IssueBook(db, actor, pk, t1).db;
      IssueBook(d, actor, pk, t2) == Handled(Http404, d)
  {
    IssueBookKeepsInv(db, actor, pk, t1);
  }

  /** Returning the same loan a second time answers 404 and changes nothing, so the copy
      comes back once. */
  lemma ReturnAtMostOnce(db: Db, actor: User, pk: Id, t1: Time, t2: Time)
    requires Inv(db)
    requires ReturnBook(db, actor, pk, t1).resp == Success
    ensures Inv(ReturnBook(db, actor, pk, t1).db)
    ensures var d := ReturnBook(db, actor, pk, t1).db;
      ReturnBook(d, actor, pk, t2) == Handled(Http404, d)
  {
    ReturnBookKeepsInv(db, actor, pk, t1);
  }

  /** Asking again for a book one has just asked for is answered "already requested" and
      changes nothing, whenever it comes. */
  lemma SecondRequestRefused(db: Db, actor: User, pk: Id, t1: Time, t2: Time)
    requires RequestBook(db, actor, pk, t1).resp == Success
    ensures var d := RequestBook(db, actor, pk, t1).db;
      RequestBook(d, actor, pk, t2) == Handled(AlreadyRequested, d)
  {
    var d := RequestBook(db, actor, pk, t1).db;
    assert d.requests[db.nextRequest].status == Pending;
  }

  /** Approve, reject, issue and return turn a non-librarian away without a change. */
  lemma OnlyLibrariansDecide(db: Db, e: Event)
    requires Inv(db)
    requires !IsLibrarian(e.actor)
    requires e.action.Approve? || e.action.Reject? || e.action.Issue? || e.action.Return?
    ensures Step(db, e) == Handled(LoginRedirect, db)
  {
  }

  /** Whoever asks, a new request is pending and the loan for a request is created only
      from an approved one. */
  lemma LoansComeFromApprovedRequests(db: Db, e: Event)
    requires Inv(db)
    ensures var d := Step(db, e).db;
      forall l :: l in d.loans && l !in db.loans ==>
        d.loans[l].request in db.requests && db.requests[d.loans[l].request].status == Approved
  {
  }
}

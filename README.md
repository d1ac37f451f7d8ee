# Library lending workflow, modelled in Dafny

This project models the core of a Django library app: the handlers that change data in
`library/views.py` and the models in `library/models.py` that they read and write. The
three database tables are:

- `Book`: title, author, `total_copies` and `available_copies`, both `PositiveIntegerField`s.
- `BookRequest`: a student's request for a book. Its status is pending, approved, rejected
  or issued. A librarian's decision stamps `approval_date` and `approved_by`.
- `IssuedBook`: a loan. It is one-to-one with the request it came from, due 14 days after
  issue, and has a nullable `return_date`.

The handlers make these changes:

- A user adds, updates or deletes a book.
- A user requests a book.
- A librarian approves or rejects a pending request.
- A librarian issues an approved request: this creates the loan and takes one copy off
  the shelf.
- A librarian returns a loan: one copy goes back on the shelf. `Book.save` caps the
  count at the total.

The project has these files:

- `models.dfy` (`Models`): the records as datatypes. `Clamped` is the adjustment
  `Book.save` makes. It also holds the request state machine (`Transition`, `Precedes`).
- `workflow.dfy` (`Workflow`): the database as a value (`Db`: three maps keyed by primary
  key, plus the next auto-increment id of each table). It also holds the consistency
  predicate `Inv`, and one function per handler from the database before the request to
  the response and the database after it. `Step` dispatches one HTTP request to its
  handler.
- `views.dfy` (`Views.Library`): the handlers as they run. A class holds the three tables
  as fields, and each method reads a row, changes its attributes and saves it, the way the
  view does. Each method is proved to return the response and leave the state that the
  `Workflow` function specifies, and to keep `Inv`.
- `invariants.dfy`: every handler keeps `Inv`. So does every sequence of handled requests
  (`Run`).
- `lifecycle.dfy`: the request state machine and the life of a loan, over one step and
  over any run. Also the "at most once" properties and the librarian gate.
- `stock.dfy`: copy counts. It proves that copies are conserved: available copies plus
  copies out on loan equal the total. It also proves where conservation fails.

`Inv` says:

- Ids are below their table's counter.
- Every book has 0 <= available <= total.
- Every request's book exists.
- A request has an approval stamp exactly when it is no longer pending.
- Every loan belongs to an issued request for the same student and book, and is due 14
  days after issue.
- Every issued request has exactly one loan.
- No student has two pending-or-approved requests for the same book.

The code's behaviour, which the model follows:

- Adding, updating and deleting books is only `@login_required`; any logged-in user may
  do it. `request_book` checks no role either. Approve, reject, issue and return are
  gated by `is_librarian`. That gate runs before the row lookup, so a non-librarian gets
  the login redirect even for a missing id.
- Refusals are not typed errors. They are a 404 (`Http404`), the login redirect
  (`LoginRedirect`) or a flash message (`AlreadyRequested`, `NotAvailable`), and none of
  them changes anything. Approving, rejecting or issuing a request in the wrong status is
  a 404 from `get_object_or_404(..., status=...)`. It is not a distinct "invalid
  transition". So is returning a loan twice.
- A negative `total_copies` makes the database reject the row through the
  `PositiveIntegerField` check constraint (`IntegrityError`), and nothing is written.
- `issue_book` creates the loan before anything else, and the one-to-one key on
  `IssuedBook.request` would reject a second loan for the same request. That can never
  happen: `Invariants.LoansPointAtClosedRequests` proves that in a consistent database no
  loan belongs to an approved request.
- `return_book` does not fail when the count would exceed the total. `Book.save` caps it
  silently.
- `update_book` sets `total_copies` and leaves `available_copies` as it was, capped at the
  new total. Raising the total of a book whose copies are all accounted for therefore
  strands the new copies: neither the shelf nor a loan accounts for them. Lowering the
  total below the number on loan makes later returns get capped. So conservation is not
  an invariant of the code. `Stock.RunConserves` proves that every
  other handler keeps it, and `Stock.UpdateBookCanBreakConservation` gives a concrete
  database that `update_book` takes out of it.
- The code does not keep the bound "a book never has more copies out than its total".
  Lowering the total below the copies on loan leaves more open loans than copies, and the
  database is still consistent. `Stock.UpdateBookCanOverIssue` shows this for a two-copy
  book with both copies out whose total is set to 1. `Stock.NeverOverIssued` gives the
  bound only while copies are conserved, and `Stock.FreshRunNeverOverIssues` shows that it
  holds on every run from a fresh database that contains no book update.
- `User.role` is the datatype `Role` (student or librarian, default student). Time is an
  abstract count of days passed in as `now`, so the due date is `now + 14`.

## Model

| member | source | states |
|---|---|---|
| `Models.Clamped` | library/models.py:23-26 | the saved book has available <= total; available never rises; a book already in range is stored unchanged; one above range is capped at exactly the total; title, author and total are untouched |
| `Models.ClampIdempotent` | library/models.py:24-25 | saving a book twice stores the same row as saving it once |
| `Models.PrecedesIsReachability` | library/views.py:97-132 | the "later status" order is exactly the reflexive-transitive closure of pending→approved, pending→rejected, approved→issued; no path has three edges |
| `Models.TerminalIsFinal` | library/views.py:97-119 | from rejected or issued no transition leads anywhere else |
| `Workflow.Inv` | library/models.py:14-51 | the consistency predicate: ids below their counters, 0 <= available <= total, foreign keys resolve, stamped iff decided, loans match their issued requests, one loan per issued request, one open request per student and book |
| `Workflow.Step` | library/views.py:18-149 | whichever handler a request reaches, a refusal writes nothing and no counter decreases; the login redirect is given iff a non-librarian calls approve, reject, issue or return |
| `Workflow.AddBook` | library/views.py:18-26 | succeeds iff total_copies >= 0; then exactly one new book at the next id (not yet taken whenever ids are below their counter) with available == total and nothing else changes; otherwise IntegrityError and nothing changes |
| `Workflow.UpdateBook` | library/views.py:29-38 | 404 iff no such book; IntegrityError iff the new total is negative; on success only that book changes: new title, author and total, available = min(old available, new total) |
| `Workflow.DeleteBook` | library/views.py:41-46 | 404 iff no such book; on success removes exactly the book, its requests, and the loans of the book or of a removed request (the CASCADEs of library/models.py:36,47,48); all other rows are kept unchanged |
| `Workflow.RequestBook` | library/views.py:48-65 | 404 iff no book; NotAvailable iff no copy available; AlreadyRequested iff the user has a pending or approved request for it; otherwise exactly one new request (user, book, now, pending, unstamped) at the next id (not yet taken whenever ids are below their counter) and nothing else changes |
| `Workflow.ApproveRequest` | library/views.py:94-103 | login redirect iff the actor is not a librarian; 404 iff the request is missing or not pending (the status-filtered lookup `HasRequestIn` fails); on success only that request changes, to approved, stamped with now and the actor |
| `Workflow.RejectRequest` | library/views.py:105-114 | same guards as approve (the 404 is the status-filtered lookup `HasRequestIn` failing); on success only that request changes, to rejected, stamped with now and the actor |
| `Workflow.IssueBook` | library/views.py:116-137 | login redirect iff not librarian; 404 iff the request is missing or not approved (`HasRequestIn` fails); NotAvailable iff its book has no copy; on success exactly one new loan for that request due now+14, that book's available drops by exactly 1, the request becomes issued, nothing else changes |
| `Workflow.ReturnBook` | library/views.py:139-149 | login redirect iff not librarian; 404 iff no loan with a null return date; on success the loan gets return date now and its book's available becomes min(available + 1, total), nothing else changes |
| `Invariants.EmptyIsConsistent` | library/models.py:14-51 | the empty database satisfies every constraint of Inv |
| `Invariants.LoansPointAtClosedRequests` | library/models.py:47-48 | in a consistent database every loan's book exists and its request is neither pending nor approved, so the loan issue_book creates never collides on the one-to-one key |
| `Invariants.AddBookKeepsInv` | library/views.py:18-26 | add_book keeps Inv |
| `Invariants.UpdateBookKeepsInv` | library/views.py:29-38 | update_book keeps Inv, in particular 0 <= available <= total through the cap |
| `Invariants.DeleteBookKeepsInv` | library/views.py:41-46 | delete_book with its cascades keeps Inv (no dangling request or loan) |
| `Invariants.RequestBookKeepsInv` | library/views.py:48-65 | request_book keeps Inv, in particular at most one open request per student and book |
| `Invariants.ApproveRequestKeepsInv` | library/views.py:94-103 | approve_request keeps Inv |
| `Invariants.RejectRequestKeepsInv` | library/views.py:105-114 | reject_request keeps Inv |
| `Invariants.IssueBookKeepsInv` | library/views.py:116-137 | issue_book keeps Inv: the decrement is guarded, and the new loan is the request's only one |
| `Invariants.ReturnBookKeepsInv` | library/views.py:139-149 | return_book keeps Inv: the cap keeps available <= total |
| `Invariants.StepKeepsInv` | library/views.py:18-149 | whichever handler runs, Inv is kept |
| `Invariants.Run` | library/views.py:18-149 | any sequence of handled requests from a consistent database ends in a consistent database |
| `Lifecycle.AddBookMoves` | library/views.py:18-26 | add_book leaves the requests and loans tables exactly as they were (and the step satisfies Moves) |
| `Lifecycle.UpdateBookMoves` | library/views.py:29-38 | update_book leaves the requests and loans tables exactly as they were (and the step satisfies Moves) |
| `Lifecycle.DeleteBookMoves` | library/views.py:41-46 | every request and loan left after delete_book existed before and is unchanged: the cascade only removes rows |
| `Lifecycle.RequestBookMoves` | library/views.py:48-65 | request_book leaves loans alone and keeps every existing request unchanged; the only possible new request is at the next id, by the actor, for that book, made now, pending and unstamped |
| `Lifecycle.ApproveRequestMoves` | library/views.py:94-103 | approve_request leaves loans and the request ids alone; every request is unchanged except possibly the one asked for, which was pending and is now approved, stamped with now and the actor |
| `Lifecycle.RejectRequestMoves` | library/views.py:105-114 | reject_request leaves loans and the request ids alone; every request is unchanged except possibly the one asked for, which was pending and is now rejected, stamped with now and the actor |
| `Lifecycle.IssueBookMoves` | library/views.py:116-137 | issue_book keeps every request except possibly the one asked for, which goes approved→issued with its stamp kept; every existing loan is kept unchanged and the only possible new loan is at the next id, for that request, issued now and open |
| `Lifecycle.ReturnBookMoves` | library/views.py:139-149 | return_book leaves requests and the loan ids alone; every loan is unchanged except possibly the one asked for, which was open and now has return date now |
| `Lifecycle.StepMovesLegally` | library/views.py:94-149 | each handled request changes at most one existing request, and only along a legal edge; new requests are pending; existing loans are unchanged or closed now; new loans are open |
| `Lifecycle.StepEvolves` | library/views.py:18-149 | one handled request yields a later state (Evolves) |
| `Lifecycle.RunEvolves` | library/views.py:18-149 | after any sequence of handled requests, every surviving request keeps its student, book and date, its status has only moved forward and its stamp is fixed once decided; every surviving loan has only gained a return date and kept the first one |
| `Lifecycle.DecidedStaysDecided` | library/views.py:97-119 | a rejected or issued request is never changed by anything handled later |
| `Lifecycle.ReturnedStaysReturned` | library/views.py:142-144 | a returned loan is never changed by anything handled later |
| `Lifecycle.DecidedCannotBeDecidedAgain` | library/views.py:97-112 | approving or rejecting a request that is no longer pending does not succeed and changes nothing |
| `Lifecycle.IssueAtMostOnce` | library/views.py:119-133 | after a successful issue, issuing the same request again is a 404 and changes nothing |
| `Lifecycle.ReturnAtMostOnce` | library/views.py:142-147 | after a successful return, returning the same loan again is a 404 and changes nothing: the lookup (`OnLoan`, the loan exists with a null return date) no longer finds it |
| `Lifecycle.SecondRequestRefused` | library/views.py:53-59 | right after a successful request, asking again for the same book is answered "already requested" and changes nothing: the duplicate check (`HasOpenRequest`, a pending or approved request of that student for that book) sees the new request |
| `Lifecycle.OnlyLibrariansDecide` | library/views.py:10-11 | approve, reject, issue and return by a non-librarian redirect to login and change nothing; `IsLibrarian` is the `is_librarian` role test |
| `Lifecycle.LoansComeFromApprovedRequests` | library/views.py:119-129 | every loan a handled request creates is for a request that was approved just before |
| `Stock.NeverOverIssued` | library/views.py:121 | while copies are conserved, no book has more loans out than copies (update_book can break this, see `Stock.UpdateBookCanOverIssue`) |
| `Stock.AddBookConserves` | library/views.py:23-24 | a new book starts with every copy on the shelf |
| `Stock.DeleteBookConserves` | library/views.py:41-46 | deleting a book keeps every other book's copies accounted for |
| `Stock.RequestsConserve` | library/views.py:48-114 | requesting, approving and rejecting keep copies accounted for |
| `Stock.IssueBookConserves` | library/views.py:121-131 | issuing moves exactly one copy from the shelf to the new loan |
| `Stock.ReturnBookConserves` | library/views.py:144-147 | returning moves exactly one copy back; while copies are conserved the cap never cuts the increment short, so available rises by exactly 1 |
| `Stock.StepConserves` | library/views.py:18-149 | every handler except update_book keeps copies accounted for |
| `Stock.FreshRunNeverOverIssues` | library/views.py:118-149 | from a freshly migrated database, no run without update_book ever has more open loans of a book than its total copies |
| `Stock.RunConserves` | library/views.py:18-149 | any sequence of handled requests without a book update keeps copies accounted for |
| `Stock.UpdateBookCanBreakConservation` | library/views.py:35-36 | raising a book's total from 1 to 2 leaves 1 available and none out: update_book can break conservation |
| `Stock.UpdateBookCanOverIssue` | library/views.py:35-36 | from a consistent, conserving database with both copies of a book out, setting its total to 1 succeeds and leaves a consistent database with 2 open loans against a total of 1 |
| `Stock.IssueThenReturnRestoresStock` | library/views.py:118-149 | issuing a request and returning its loan leaves every book's stock as it was |
| `Stock.TwoCopyScenario` | library/views.py:48-149 | 2 copies: request, approve, issue leave 1 available, the request issued and the loan due 14 days later; the return brings back 2 |
| `Stock.OutOfStockScenario` | library/views.py:51-64 | requesting a book with no available copy is refused and changes nothing |
| `Views.Library.constructor` | library/models.py:14-51 | a fresh database is empty and consistent |
| `Views.Library.SaveBook` | library/models.py:23-26 | writes the book capped by `Clamped` and changes no other row |
| `Views.Library.AddBook` | library/views.py:18-26 | does exactly what `Workflow.AddBook` specifies and keeps Inv |
| `Views.Library.UpdateBook` | library/views.py:29-38 | does exactly what `Workflow.UpdateBook` specifies and keeps Inv |
| `Views.Library.DeleteBook` | library/views.py:41-46 | does exactly what `Workflow.DeleteBook` specifies and keeps Inv |
| `Views.Library.RequestBook` | library/views.py:48-65 | does exactly what `Workflow.RequestBook` specifies and keeps Inv |
| `Views.Library.ApproveRequest` | library/views.py:94-103 | does exactly what `Workflow.ApproveRequest` specifies and keeps Inv |
| `Views.Library.RejectRequest` | library/views.py:105-114 | does exactly what `Workflow.RejectRequest` specifies and keeps Inv |
| `Views.Library.IssueBook` | library/views.py:116-137 | does exactly what `Workflow.IssueBook` specifies and keeps Inv |
| `Views.Library.ReturnBook` | library/views.py:139-149 | does exactly what `Workflow.ReturnBook` specifies and keeps Inv |

## Left out

- Rendering, templates, `messages` and `redirect`: the model keeps only which response a handler gives.
- The GET branches of `add_book` and `update_book`: they only render a form.
- `book_list`, `view_my_requests`, the two dashboards, `librarian_requests`, `librarian_issued`, `student_books` and `dashboard`: these are read-only queries or routing.
- `login_view` and `signup`: they rely on Django's authentication and password hashing. Every modelled request comes from an authenticated user, so the anonymous-user redirect of `login_required` is not modelled.
- Form parsing: a missing POST field or a non-numeric `total_copies` raises before anything is written. The model takes `total_copies` as an integer.
- `transaction.atomic` and concurrent requests: each handler is one sequential step.
- The clock: `timezone.now()`, `auto_now_add` and `timedelta(days=14)` become a day count `now`. The issue date and the due-date base are the same instant.
- The users table and its deletion (CASCADE on `student`, SET_NULL on `approved_by`): users are an id and a role, and `approved_by` stores the acting user's id.
- Column limits of the database (`max_length` on `title`, `author`, `role` and `status`, and the integer range of the two count columns) are not modelled: rows beyond them fail at the database, while the model stores them.
- Workflow.AddBook: answers `Success` for every non-negative total, including one above the integer range of the count columns, where the database would refuse the row.
- Workflow.UpdateBook: answers `Success` for every non-negative total, including one above the integer range of the count columns, where the database would refuse the row.
- The `default=1` of the two book counts: `add_book` always passes both counts.
- The `__str__` methods, `library/urls.py` and `library/admin.py`: presentation and configuration.

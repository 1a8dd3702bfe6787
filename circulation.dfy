/** What issuing and returning loans keep true of the library together: a
    book is marked `borrowed` exactly when it is on loan, no book is lent
    twice at once, and no user holds more than five loans. */
module Circulation {
  import opened Store
  import opened LoanModel
  import LoanService
  import LegacyLoanService
  import LegacyBookService

  /** Every book on loan is marked `borrowed`. */
  ghost predicate LentBooksBorrowed(s: Store)
  {
    forall id :: id in s.loans && !s.loans[id].returned ==>
      s.loans[id].bookId in s.books && s.books[s.loans[id].bookId].status == BORROWED
  }

  /** Every book marked `borrowed` is on loan. */
  ghost predicate BorrowedBooksLent(s: Store)
  {
    forall b :: b in s.books && s.books[b].status == BORROWED ==>
      exists id :: id in s.loans && !s.loans[id].returned && s.loans[id].bookId == b
  }

  /** No book has two unreturned loans. */
  ghost predicate OneLoanPerBook(s: Store)
  {
    forall a, b ::
      a in s.loans && b in s.loans && !s.loans[a].returned && !s.loans[b].returned && s.loans[a].bookId == s.loans[b].bookId
      ==> a == b
  }

  /** No user holds more than five unreturned loans. */
  ghost predicate WithinLimit(s: Store)
  {
    forall u :: CountActive(s.loans, u) <= MAX_LOANS
  }

  /** The circulation invariant. */
  ghost predicate Consistent(s: Store)
  {
    LentBooksBorrowed(s) && BorrowedBooksLent(s) && OneLoanPerBook(s) && WithinLimit(s)
  }

  /** Adding an unreturned loan under a fresh id adds one to its borrower's
      count and leaves every other count alone. */
  lemma {:induction false} CountAfterInsert(loans: map<Id, Loan>, k: Id, loan: Loan, u: Id)
    requires k !in loans && !loan.returned
    ensures CountActive(loans[k := loan], u) == CountActive(loans, u) + (if loan.userId == u then 1 else 0)
  {
    if loan.userId == u {
      assert ActiveLoansOf(loans[k := loan], u) == ActiveLoansOf(loans, u) + {k};
    } else {
      assert ActiveLoansOf(loans[k := loan], u) == ActiveLoansOf(loans, u);
    }
  }

  /** Marking an unreturned loan returned takes one off its borrower's count. */
  lemma {:induction false} CountAfterReturn(loans: map<Id, Loan>, k: Id, loan: Loan, u: Id)
    requires k in loans && !loans[k].returned && loan.returned && loan.userId == loans[k].userId
    ensures CountActive(loans[k := loan], u) <= CountActive(loans, u)
  {
    assert ActiveLoansOf(loans[k := loan], u) <= ActiveLoansOf(loans, u);
    var smaller, larger := ActiveLoansOf(loans[k := loan], u), ActiveLoansOf(loans, u);
    assert larger == smaller + (larger - smaller);
  }

  /** Lending an available book under a fresh id to a user below the limit,
      and marking the book `borrowed`, keeps the library consistent. */
  lemma {:induction false} LendKeepsConsistent(s: Store, t: Store, k: Id, loan: Loan)
    requires Consistent(s)
    requires k !in s.loans && !loan.returned
    requires loan.bookId in s.books && s.books[loan.bookId].status == AVAILABLE
    requires CountActive(s.loans, loan.userId) < MAX_LOANS
    requires t.loans == s.loans[k := loan]
    requires t.books == s.books[loan.bookId := s.books[loan.bookId].(status := BORROWED)]
    ensures Consistent(t)
  {
    forall u ensures CountActive(t.loans, u) <= MAX_LOANS {
      CountAfterInsert(s.loans, k, loan, u);
    }
    assert AVAILABLE != BORROWED by {
      assert AVAILABLE[0] != BORROWED[0];
    }
    forall b | b in t.books && t.books[b].status == BORROWED
      ensures exists id :: id in t.loans && !t.loans[id].returned && t.loans[id].bookId == b
    {
      if b == loan.bookId {
        assert t.loans[k] == loan;
      } else {
        var id :| id in s.loans && !s.loans[id].returned && s.loans[id].bookId == b;
        assert t.loans[id] == s.loans[id];
      }
    }
  }

  /** Issuing a loan keeps the library consistent, whichever model
      definitions are in force. */
  lemma {:induction false} IssueLoanKeepsConsistent(defs: ModelDefs, s: Store, userId: Id, bookId: Id, today: int)
    requires s.Valid() && Consistent(s)
    ensures Consistent(LoanService.IssueLoan(defs, s, userId, bookId, today).store)
  {
    var r := LoanService.IssueLoan(defs, s, userId, bookId, today);
    if r.result.Ok? {
      LendKeepsConsistent(s, r.store, r.result.value, LoanService.NewLoan(userId, bookId, today));
    }
  }

  /** The older service issues the same loans, so it keeps it too. */
  lemma {:induction false} LegacyIssueLoanKeepsConsistent(defs: ModelDefs, s: Store, userId: Id, bookId: Id, today: int)
    requires s.Valid() && Consistent(s)
    ensures Consistent(LegacyLoanService.IssueLoan(defs, s, userId, bookId, today).store)
  {
    var r := LegacyLoanService.IssueLoan(defs, s, userId, bookId, today);
    if r.result.Ok? {
      LegacyLoanService.OwnLoansCounted(s, userId);
      assert r.store == LoanService.IssueLoan(defs, s, userId, bookId, today).store;
      IssueLoanKeepsConsistent(defs, s, userId, bookId, today);
    }
  }

  /** Marking an unreturned loan returned, and giving its book any status
      but `borrowed`, keeps the library consistent: the book it frees had no
      other loan out. */
  lemma {:induction false} FreeKeepsConsistent(s: Store, t: Store, k: Id, returnedDate: int, status: string)
    requires Consistent(s)
    requires k in s.loans && !s.loans[k].returned && status != BORROWED
    requires t.loans == s.loans[k := s.loans[k].(returned := true, returnedDate := Some(returnedDate))]
    requires t.books == s.books[s.loans[k].bookId := s.books[s.loans[k].bookId].(status := status)]
    ensures Consistent(t)
  {
    var loan := s.loans[k];
    forall u ensures CountActive(t.loans, u) <= MAX_LOANS {
      CountAfterReturn(s.loans, k, t.loans[k], u);
    }
    forall id | id in t.loans && !t.loans[id].returned
      ensures t.loans[id].bookId in t.books && t.books[t.loans[id].bookId].status == BORROWED
    {
      assert id != k;
      assert s.loans[id].bookId != loan.bookId;
    }
    forall b | b in t.books && t.books[b].status == BORROWED
      ensures exists id :: id in t.loans && !t.loans[id].returned && t.loans[id].bookId == b
    {
      var id :| id in s.loans && !s.loans[id].returned && s.loans[id].bookId == b;
      assert id != k;
      assert t.loans[id] == s.loans[id];
    }
  }

  /** Returning a loan keeps the library consistent, whichever model
      definitions are in force. */
  lemma {:induction false} ReturnLoanKeepsConsistent(defs: ModelDefs, s: Store, loanId: Id, damaged: bool, today: int)
    requires s.Valid() && Consistent(s)
    ensures Consistent(LoanService.ReturnLoan(defs, s, loanId, damaged, today).store)
  {
    var r := LoanService.ReturnLoan(defs, s, loanId, damaged, today);
    if r.result.Ok? {
      assert LoanService.ReturnedStatus(damaged) != BORROWED by {
        assert AVAILABLE[0] != BORROWED[0] && DAMAGED[0] != BORROWED[0];
      }
      FreeKeepsConsistent(s, r.store, loanId, today, LoanService.ReturnedStatus(damaged));
    }
  }

  /** So does the older service's return. */
  lemma LegacyReturnLoanKeepsConsistent(defs: ModelDefs, s: Store, loanId: Id, damaged: bool, today: int)
    requires s.Valid() && Consistent(s)
    ensures Consistent(LegacyLoanService.ReturnLoan(defs, s, loanId, damaged, today).store)
  {
    LegacyLoanService.ReturnLoanAgrees(defs, s, loanId, damaged, today);
    ReturnLoanKeepsConsistent(defs, s, loanId, damaged, today);
  }

  /** A book on loan is never offered for a second loan. */
  lemma LentBookRefused(defs: ModelDefs, s: Store, loanId: Id, userId: Id, today: int)
    requires s.Valid() && Consistent(s)
    requires loanId in s.loans && !s.loans[loanId].returned
    requires LoanService.VerifyUser(s, userId).Ok?
    ensures LoanService.IssueLoan(defs, s, userId, s.loans[loanId].bookId, today).result == Err(BookNotAvailable)
  {
  }

  /** The status endpoint is not bound by the invariant: setting a lent book
      back to `available` by hand breaks it. */
  lemma StatusOverrideBreaksConsistency(s: Store, loanId: Id)
    requires s.Valid() && Consistent(s)
    requires loanId in s.loans && !s.loans[loanId].returned
    ensures !Consistent(LegacyBookService.SetBookStatus(s, s.loans[loanId].bookId, AVAILABLE).store)
  {
  }
}

/** `LoanValidationService` of `services/loan/loan_validation_service.py`:
    three checks that agree with the ones the loan service and the `Loan`
    model make. */
module LoanValidation {
  import opened Store
  import opened LoanModel
  import LoanService

  /** `validate_loan_limits`: whether the user may borrow one more book. It
      answers yes exactly when the loan service's own limit check passes. */
  function ValidateLoanLimits(s: Store, userId: Id): (ok: bool)
    ensures ok <==> LoanService.VerifyLoanLimits(s, userId).None?
  {
    CountActive(s.loans, userId) < MAX_LOANS
  }

  /** `validate_due_date`: a due date before today is an error. */
  function ValidateDueDate(dueDate: int, today: int): (r: Result<bool>)
    ensures r.Ok? <==> dueDate >= today
    ensures r.Ok? ==> r.value
    ensures r.Err? ==> r.error == DueDateInPast
  {
    if dueDate < today then Err(DueDateInPast) else Ok(true)
  }

  /** It refuses exactly the due dates that `Loan.clean` refuses for a new loan. */
  lemma DueDateAgreesWithModel(defs: ModelDefs, s: Store, loan: Loan, today: int)
    requires loan.bookId in s.books && s.books[loan.bookId].status == AVAILABLE
    requires defs.ModuleModels? || CountActive(s.loans, loan.userId) < MAX_LOANS
    ensures ValidateDueDate(loan.dueDate, today).Ok? <==> LoanClean(defs, s, None, loan, today).None?
  {
  }

  /** `can_extend_loan`: an unknown loan is an error; a returned or overdue
      loan cannot be extended; any other can. */
  function CanExtendLoan(s: Store, loanId: Id, today: int): (r: Result<bool>)
    ensures r.Err? <==> loanId !in s.loans
    ensures r.Err? ==> r.error == LoanNotFound
    ensures r.Ok? ==> (r.value <==> !s.loans[loanId].returned && s.loans[loanId].dueDate >= today)
  {
    if loanId !in s.loans then Err(LoanNotFound)
    else
      var loan := s.loans[loanId];
      if loan.returned then Ok(false)
      else if loan.dueDate < today then Ok(false)
      else Ok(true)
  }

  /** A loan that can be extended would be returned today without a fine. */
  lemma ExtendableLoanOwesNothing(s: Store, loanId: Id, today: int)
    requires CanExtendLoan(s, loanId, today) == Ok(true)
    ensures LoanService.CalculateFine(today, s.loans[loanId].dueDate) == LoanService.FineInfo(0, 0)
  {
  }

  /** A freshly issued loan can be extended for its whole loan period. */
  lemma NewLoanExtendable(defs: ModelDefs, s: Store, userId: Id, bookId: Id, today: int, day: int)
    requires s.Valid()
    requires LoanService.IssueLoan(defs, s, userId, bookId, today).result.Ok?
    requires today <= day <= today + LOAN_DAYS
    ensures var r := LoanService.IssueLoan(defs, s, userId, bookId, today);
      CanExtendLoan(r.store, r.result.value, day) == Ok(true)
  {
  }
}

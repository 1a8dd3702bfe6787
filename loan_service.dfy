/** `LoanService` of `services/loan/loan_service.py`, the one the loan views
    use: issuing a loan and processing its return. The class defines
    `process_return` twice with the same body; the later definition is the
    one in force and is modelled here. Loans are saved through the `Loan`
    model, so both operations take the definition of the model classes in
    force. */
module LoanService {
  import opened Store
  import opened LoanModel

  // ---------------------------------------------------------------------------
  // Fines

  /** `max(0, n)` */
  function Max0(n: int): nat
  {
    if n > 0 then n else 0
  }

  datatype FineInfo = FineInfo(daysLate: nat, fineAmount: nat)

  /** `_calculate_fine`: days late counted from the due date, never negative;
      no fine within the grace days, then a daily fine for every day beyond
      them. */
  function CalculateFine(today: int, dueDate: int): (info: FineInfo)
    ensures info.daysLate == Max0(today - dueDate)
    ensures info.fineAmount == Max0(info.daysLate - GRACE_DAYS) * DAILY_FINE
  {
    var daysLate := today - dueDate;
    FineInfo(Max0(daysLate), if daysLate > GRACE_DAYS then (daysLate - GRACE_DAYS) * DAILY_FINE else 0)
  }

  /** No fine exactly when the loan is at most two days late. */
  lemma FineZeroIffWithinGrace(today: int, dueDate: int)
    ensures CalculateFine(today, dueDate).fineAmount == 0 <==> today - dueDate <= GRACE_DAYS
  {
  }

  /** Returning later never costs less, and each extra day past the grace
      days costs exactly the daily fine. */
  lemma FineMonotone(dueDate: int, today: int, later: int)
    requires today <= later
    ensures CalculateFine(today, dueDate).fineAmount <= CalculateFine(later, dueDate).fineAmount
    ensures today - dueDate >= GRACE_DAYS ==>
      CalculateFine(later, dueDate).fineAmount
        == CalculateFine(today, dueDate).fineAmount + (later - today) * DAILY_FINE
  {
  }

  // ---------------------------------------------------------------------------
  // The checks, in the order create_loan runs them

  /** `_verify_user`: the user must exist and be active. */
  function VerifyUser(s: Store, userId: Id): (r: Result<User>)
    ensures r.Ok? <==> userId in s.users && s.users[userId].isActive
    ensures userId !in s.users ==> r == Err(UserNotFound)
    ensures userId in s.users && !s.users[userId].isActive ==> r == Err(UserInactive)
    ensures r.Ok? ==> r.value == s.users[userId]
  {
    if userId !in s.users then Err(UserNotFound)
    else if !s.users[userId].isActive then Err(UserInactive)
    else Ok(s.users[userId])
  }

  /** `_verify_book`: the book must exist and be `available`. */
  function VerifyBook(s: Store, bookId: Id): (r: Result<Book>)
    ensures r.Ok? <==> bookId in s.books && s.books[bookId].status == AVAILABLE
    ensures bookId !in s.books ==> r == Err(BookNotFound)
    ensures bookId in s.books && s.books[bookId].status != AVAILABLE ==> r == Err(BookNotAvailable)
    ensures r.Ok? ==> r.value == s.books[bookId]
  {
    if bookId !in s.books then Err(BookNotFound)
    else if s.books[bookId].status != AVAILABLE then Err(BookNotAvailable)
    else Ok(s.books[bookId])
  }

  /** `_verify_loan_limits`: the user must hold fewer than five unreturned loans. */
  function VerifyLoanLimits(s: Store, userId: Id): (e: Option<Error>)
    ensures e.None? <==> CountActive(s.loans, userId) < MAX_LOANS
    ensures e.Some? ==> e.value == LoanLimitReached
  {
    if CountActive(s.loans, userId) >= MAX_LOANS then Some(LoanLimitReached) else None
  }

  /** `_get_loan` */
  function GetLoan(s: Store, loanId: Id): (r: Result<Loan>)
    ensures r.Ok? <==> loanId in s.loans
    ensures r.Ok? ==> r.value == s.loans[loanId]
    ensures r.Err? ==> r.error == LoanNotFound
  {
    if loanId in s.loans then Ok(s.loans[loanId]) else Err(LoanNotFound)
  }

  // ---------------------------------------------------------------------------
  // create_loan

  /** The loan `create_loan` writes: issued today, due in fifteen days. */
  function NewLoan(userId: Id, bookId: Id, today: int): Loan
  {
    Loan(bookId, userId, today, today + LOAN_DAYS, None, false)
  }

  /** The effect of `create_loan`: the user, the book and the loan limit are
      checked in that order, each failure reported before anything is
      written; then the loan is saved (its model's own checks pass, so the
      error wrapping around the save never fires) and the book is `borrowed`. */
  function IssueLoan(defs: ModelDefs, s: Store, userId: Id, bookId: Id, today: int): (r: Step<Id>)
    requires s.Valid()
    ensures r.store.Valid() && r.notices == []
    ensures userId !in s.users ==> r.result == Err(UserNotFound)
    ensures userId in s.users && !s.users[userId].isActive ==> r.result == Err(UserInactive)
    ensures VerifyUser(s, userId).Ok? && bookId !in s.books ==> r.result == Err(BookNotFound)
    ensures VerifyUser(s, userId).Ok? && bookId in s.books && s.books[bookId].status != AVAILABLE
      ==> r.result == Err(BookNotAvailable)
    ensures VerifyUser(s, userId).Ok? && VerifyBook(s, bookId).Ok? && CountActive(s.loans, userId) >= MAX_LOANS
      ==> r.result == Err(LoanLimitReached)
    ensures r.result.Ok? <==>
      VerifyUser(s, userId).Ok? && VerifyBook(s, bookId).Ok? && CountActive(s.loans, userId) < MAX_LOANS
    ensures r.result.Err? ==> r.store == s
    ensures r.result.Ok? ==>
      && r.result.value == s.loanSeq && r.result.value !in s.loans
      && r.store.loans == s.loans[r.result.value := NewLoan(userId, bookId, today)]
      && r.store.loans[r.result.value].dueDate == today + 15
      && r.store.books == s.books[bookId := s.books[bookId].(status := BORROWED)]
      && r.store.users == s.users && r.store.reservations == s.reservations
  {
    match VerifyUser(s, userId)
    case Err(e) => Refuse(s, e)
    case Ok(_) =>
      match VerifyBook(s, bookId)
      case Err(e) => Refuse(s, e)
      case Ok(_) =>
        if VerifyLoanLimits(s, userId).Some? then Refuse(s, LoanLimitReached)
        else
          var saved := SaveLoanRecord(defs, s, None, NewLoan(userId, bookId, today), today);
          match saved.result
          case Ok(id) => Step(WithStatus(saved.store, bookId, BORROWED), Ok(id), [])
  }

  /** `create_loan`, run on the database. */
  method CreateLoan(db: Database, defs: ModelDefs, userId: Id, bookId: Id, today: int) returns (r: Result<Id>)
    requires db.State().Valid()
    modifies db
    ensures Step(db.State(), r, []) == IssueLoan(defs, old(db.State()), userId, bookId, today)
    ensures db.outbox == old(db.outbox)
  {
    var user := VerifyUser(db.State(), userId);
    if user.Err? {
      return Err(user.error);
    }
    var book := VerifyBook(db.State(), bookId);
    if book.Err? {
      return Err(book.error);
    }
    var limit := VerifyLoanLimits(db.State(), userId);
    if limit.Some? {
      return Err(limit.value);
    }
    var saved := SaveLoan(db, defs, None, NewLoan(userId, bookId, today), today);
    match saved {
      case Ok(id) =>
        db.SetBookStatus(bookId, BORROWED);
        r := Ok(id);
    }
  }

  // ---------------------------------------------------------------------------
  // process_return

  /** What `process_return` answers: the loan, when it was returned, the fine
      and the days late. */
  datatype ReturnInfo = ReturnInfo(loanId: Id, returnDate: int, fineAmount: nat, daysLate: nat)

  /** The book status a return leaves behind. */
  function ReturnedStatus(damaged: bool): string
  {
    if damaged then DAMAGED else AVAILABLE
  }

  /** The effect of `process_return`: a missing or already returned loan is
      refused; otherwise the fine is computed, the loan is saved as returned
      today (the save runs the model's checks, which may refuse it), and the
      book becomes `damaged` or `available`. */
  function ReturnLoan(defs: ModelDefs, s: Store, loanId: Id, damaged: bool, today: int): (r: Step<ReturnInfo>)
    requires s.Valid()
    ensures r.store.Valid() && r.notices == []
    ensures loanId !in s.loans ==> r.result == Err(LoanNotFound)
    ensures loanId in s.loans && s.loans[loanId].returned ==> r.result == Err(AlreadyReturned)
    ensures r.result.Err? ==> r.store == s
    ensures r.result.Ok? <==>
      && loanId in s.loans && !s.loans[loanId].returned
      && (SaveRunsClean(defs) && DueDateCheckedOnUpdate(defs) ==> s.loans[loanId].dueDate >= today)
    ensures r.result.Ok? ==>
      var loan := s.loans[loanId];
      && r.result.value == ReturnInfo(loanId, today,
           CalculateFine(today, loan.dueDate).fineAmount, CalculateFine(today, loan.dueDate).daysLate)
      && r.store.loans == s.loans[loanId := loan.(returned := true, returnedDate := Some(today))]
      && r.store.books == s.books[loan.bookId := s.books[loan.bookId].(status := ReturnedStatus(damaged))]
      && r.store.users == s.users && r.store.reservations == s.reservations
  {
    match GetLoan(s, loanId)
    case Err(e) => Refuse(s, e)
    case Ok(loan) =>
      if loan.returned then Refuse(s, AlreadyReturned)
      else
        var fine := CalculateFine(today, loan.dueDate);
        var saved := SaveLoanRecord(defs, s, Some(loanId), loan.(returned := true, returnedDate := Some(today)), today);
        match saved.result
        case Err(e) => Refuse(s, e)
        case Ok(_) =>
          Step(WithStatus(saved.store, loan.bookId, ReturnedStatus(damaged)),
               Ok(ReturnInfo(loanId, today, fine.fineAmount, fine.daysLate)), [])
  }

  /** `process_return`, run on the database. */
  method ProcessReturn(db: Database, defs: ModelDefs, loanId: Id, damaged: bool, today: int) returns (r: Result<ReturnInfo>)
    requires db.State().Valid()
    modifies db
    ensures Step(db.State(), r, []) == ReturnLoan(defs, old(db.State()), loanId, damaged, today)
    ensures db.outbox == old(db.outbox)
  {
    var got := GetLoan(db.State(), loanId);
    if got.Err? {
      return Err(got.error);
    }
    var loan := got.value;
    if loan.returned {
      return Err(AlreadyReturned);
    }
    var fine := CalculateFine(today, loan.dueDate);
    var saved := SaveLoan(db, defs, Some(loanId), loan.(returned := true, returnedDate := Some(today)), today);
    if saved.Err? {
      return Err(saved.error);
    }
    db.SetBookStatus(loan.bookId, ReturnedStatus(damaged));
    r := Ok(ReturnInfo(loanId, today, fine.fineAmount, fine.daysLate));
  }

  /** Under the package's model definitions, saving the returned loan runs the
      due-date check of `Loan.clean` again: a loan returned after its due date
      is refused, nothing is written, and so no fine is ever charged. */
  lemma LateReturnRefused(s: Store, loanId: Id, damaged: bool, today: int)
    requires s.Valid() && loanId in s.loans && !s.loans[loanId].returned
    requires s.loans[loanId].dueDate < today
    ensures ReturnLoan(PackageModels, s, loanId, damaged, today) == Refuse(s, DueDateInPast)
  {
  }

  /** Hence, under the package's definitions, every return that goes through
      carries a fine of zero. */
  lemma NoFineUnderPackageModels(s: Store, loanId: Id, damaged: bool, today: int)
    requires s.Valid()
    requires ReturnLoan(PackageModels, s, loanId, damaged, today).result.Ok?
    ensures ReturnLoan(PackageModels, s, loanId, damaged, today).result.value.fineAmount == 0
  {
  }

  /** With the due-date check limited to new loans, the same late return goes
      through and is fined for the days past the grace days. */
  lemma {:induction false} LateReturnFinedWhenCorrected(s: Store, loanId: Id, damaged: bool, today: int)
    requires s.Valid() && loanId in s.loans && !s.loans[loanId].returned
    requires s.loans[loanId].dueDate < today
    ensures var r := ReturnLoan(PackageModelsCorrected, s, loanId, damaged, today);
      && r.result.Ok?
      && r.result.value.daysLate == today - s.loans[loanId].dueDate
      && r.result.value.fineAmount == Max0(today - s.loans[loanId].dueDate - GRACE_DAYS) * DAILY_FINE
  {
  }
}

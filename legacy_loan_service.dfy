/** `LoanService` of `services/loan_service.py`, the older service: the same
    loan rules as `LoanService`, but the book status goes through the older
    book service (which tells the first waiting reader when a book comes
    back), a notice goes out for every new loan, the loan limit counts
    through `get_active_loans`, and a daily job reminds and warns borrowers. */
module LegacyLoanService {
  import opened Store
  import opened LoanModel
  import LoanService
  import LegacyBookService

  // ---------------------------------------------------------------------------
  // Queries

  /** Python's truth value of an optional user id: `None` and `0` are false. */
  predicate Truthy(userId: Option<Id>)
  {
    userId.Some? && userId.value != 0
  }

  /** `get_active_loans(user_id)`: the unreturned loans, restricted to the
      user only when the id is truthy. */
  function GetActiveLoans(s: Store, userId: Option<Id>): (ids: set<Id>)
    ensures Truthy(userId) ==> ids == ActiveLoansOf(s.loans, userId.value)
    ensures !Truthy(userId) ==> forall id :: id in ids <==> id in s.loans && !s.loans[id].returned
  {
    set id | id in s.loans && !s.loans[id].returned && (Truthy(userId) ==> s.loans[id].userId == userId.value)
  }

  /** User id `0` is falsy: asking for its active loans returns everybody's. */
  lemma ZeroIdCountsEveryone(s: Store)
    ensures GetActiveLoans(s, Some(0)) == GetActiveLoans(s, None)
  {
  }

  /** `get_overdue_loans`: the unreturned loans whose due date is before today. */
  function GetOverdueLoans(s: Store, today: int): (ids: set<Id>)
    ensures forall id :: id in ids <==> id in s.loans && !s.loans[id].returned && s.loans[id].dueDate < today
  {
    set id | id in s.loans && !s.loans[id].returned && s.loans[id].dueDate < today
  }

  /** `_verify_loan_limits`: fewer than five loans through `get_active_loans`. */
  function VerifyLoanLimits(s: Store, userId: Id): (e: Option<Error>)
    ensures e.None? <==> |GetActiveLoans(s, Some(userId))| < MAX_LOANS
    ensures e.Some? ==> e.value == LoanLimitReached
  {
    if |GetActiveLoans(s, Some(userId))| >= MAX_LOANS then Some(LoanLimitReached) else None
  }

  /** For every user id but `0` the older limit check is the newer one. */
  lemma LimitChecksAgree(s: Store, userId: Id)
    requires userId != 0
    ensures VerifyLoanLimits(s, userId) == LoanService.VerifyLoanLimits(s, userId)
  {
  }

  /** An example, on one concrete table, of what `ZeroIdCountsEveryone`
      implies: five loans held by others refuse user `0`, who holds none. */
  lemma {:induction false} ZeroIdRefusedByOthersLoans(s: Store)
    requires s.loans == map[0 := Loan(0, 1, 0, 15, None, false), 1 := Loan(0, 1, 0, 15, None, false),
                            2 := Loan(0, 1, 0, 15, None, false), 3 := Loan(0, 1, 0, 15, None, false),
                            4 := Loan(0, 1, 0, 15, None, false)]
    ensures CountActive(s.loans, 0) == 0
    ensures VerifyLoanLimits(s, 0) == Some(LoanLimitReached)
  {
    assert ActiveLoansOf(s.loans, 0) == {};
    assert GetActiveLoans(s, Some(0)) == {0, 1, 2, 3, 4};
  }

  /** Whatever the id, `get_active_loans` counts at least the user's own
      unreturned loans. */
  lemma OwnLoansCounted(s: Store, userId: Id)
    ensures CountActive(s.loans, userId) <= |GetActiveLoans(s, Some(userId))|
  {
    var own, all := ActiveLoansOf(s.loans, userId), GetActiveLoans(s, Some(userId));
    assert own <= all;
    assert all == own + (all - own);
  }

  // ---------------------------------------------------------------------------
  // create_loan

  /** The effect of `create_loan`: the user, the book and the limit are
      checked in that order; the loan is created, the book is set to
      `borrowed` through the book service, and the borrower is notified.
      Nothing inside the `try` can fail once the checks have passed, so its
      wrapping of errors never fires. */
  function IssueLoan(defs: ModelDefs, s: Store, userId: Id, bookId: Id, today: int): (r: Step<Id>)
    requires s.Valid()
    ensures r.store.Valid()
    ensures r.result.Err? ==> r.store == s && r.notices == []
    ensures r.result.Ok? <==>
      && LoanService.VerifyUser(s, userId).Ok? && LoanService.VerifyBook(s, bookId).Ok?
      && VerifyLoanLimits(s, userId).None?
    ensures r.result.Err? ==>
      r.result.error == (
        if LoanService.VerifyUser(s, userId).Err? then LoanService.VerifyUser(s, userId).error
        else if LoanService.VerifyBook(s, bookId).Err? then LoanService.VerifyBook(s, bookId).error
        else LoanLimitReached)
    ensures r.result.Ok? ==>
      && r.result.value == s.loanSeq && r.result.value !in s.loans
      && r.store.loans == s.loans[r.result.value := LoanService.NewLoan(userId, bookId, today)]
      && r.store.books == s.books[bookId := s.books[bookId].(status := BORROWED)]
      && r.store.users == s.users && r.store.reservations == s.reservations
      && r.notices == [LoanIssued(r.result.value, userId)]
  {
    match LoanService.VerifyUser(s, userId)
    case Err(e) => Refuse(s, e)
    case Ok(_) =>
      match LoanService.VerifyBook(s, bookId)
      case Err(e) => Refuse(s, e)
      case Ok(_) =>
        if VerifyLoanLimits(s, userId).Some? then Refuse(s, LoanLimitReached)
        else
          OwnLoansCounted(s, userId);
          var saved := SaveLoanRecord(defs, s, None, LoanService.NewLoan(userId, bookId, today), today);
          match saved.result
          case Ok(id) =>
            var st := LegacyBookService.SetBookStatus(saved.store, bookId, BORROWED);
            match st.result
            case Ok(_) => Step(st.store, Ok(id), st.notices + [LoanIssued(id, userId)])
  }

  /** Both services write the same loan and book status and refuse with the
      same error; the older one also notifies the borrower. For user `0` the
      older one may refuse where the newer one issues. */
  lemma IssueLoanAgrees(defs: ModelDefs, s: Store, userId: Id, bookId: Id, today: int)
    requires s.Valid() && userId != 0
    ensures var legacy := IssueLoan(defs, s, userId, bookId, today);
      var current := LoanService.IssueLoan(defs, s, userId, bookId, today);
      legacy.store == current.store && legacy.result == current.result
  {
  }

  /** Once the checks pass, `create_loan` is the loan's save followed by the
      book service's status change and the borrower's notice. */
  lemma IssueLoanSteps(defs: ModelDefs, s: Store, userId: Id, bookId: Id, today: int)
    requires s.Valid()
    requires LoanService.VerifyUser(s, userId).Ok? && LoanService.VerifyBook(s, bookId).Ok?
    requires VerifyLoanLimits(s, userId).None?
    ensures var saved := SaveLoanRecord(defs, s, None, LoanService.NewLoan(userId, bookId, today), today);
      && saved.result.Ok? && saved.store.Valid() && bookId in saved.store.books
      && var st := LegacyBookService.SetBookStatus(saved.store, bookId, BORROWED);
         && st.result.Ok?
         && IssueLoan(defs, s, userId, bookId, today)
            == Step(st.store, Ok(saved.result.value), st.notices + [LoanIssued(saved.result.value, userId)])
  {
    OwnLoansCounted(s, userId);
  }

  /** `create_loan`, run on the database. */
  method CreateLoan(db: Database, defs: ModelDefs, userId: Id, bookId: Id, today: int) returns (r: Result<Id>)
    requires db.State().Valid()
    modifies db
    ensures var step := IssueLoan(defs, old(db.State()), userId, bookId, today);
      db.State() == step.store && r == step.result && db.outbox == old(db.outbox) + step.notices
  {
    var user := LoanService.VerifyUser(db.State(), userId);
    if user.Err? {
      return Err(user.error);
    }
    var book := LoanService.VerifyBook(db.State(), bookId);
    if book.Err? {
      return Err(book.error);
    }
    var limit := VerifyLoanLimits(db.State(), userId);
    if limit.Some? {
      return Err(limit.value);
    }
    var id := Lend(db, defs, userId, bookId, today);
    r := Ok(id);
  }

  /** The `try` block of `create_loan`: save the loan, set the book to
      `borrowed` through the book service, notify the borrower. */
  method Lend(db: Database, defs: ModelDefs, userId: Id, bookId: Id, today: int) returns (id: Id)
    requires db.State().Valid()
    requires LoanService.VerifyUser(db.State(), userId).Ok? && LoanService.VerifyBook(db.State(), bookId).Ok?
    requires VerifyLoanLimits(db.State(), userId).None?
    modifies db
    ensures var step := IssueLoan(defs, old(db.State()), userId, bookId, today);
      db.State() == step.store && Ok(id) == step.result && db.outbox == old(db.outbox) + step.notices
  {
    IssueLoanSteps(defs, db.State(), userId, bookId, today);
    var saved := SaveLoan(db, defs, None, LoanService.NewLoan(userId, bookId, today), today);
    match saved {
      case Ok(k) =>
        var st := LegacyBookService.UpdateBookStatus(db, bookId, BORROWED);
        match st {
          case Ok(_) =>
            db.outbox := db.outbox + [LoanIssued(k, userId)];
            id := k;
        }
    }
  }

  // ---------------------------------------------------------------------------
  // process_return

  /** The effect of `process_return`: as in `LoanService`, but the new book
      status goes through the book service, so returning a book undamaged
      tells the first waiting reader. */
  function ReturnLoan(defs: ModelDefs, s: Store, loanId: Id, damaged: bool, today: int): (r: Step<LoanService.ReturnInfo>)
    requires s.Valid()
    ensures r.store.Valid()
    ensures r.result.Err? ==> r.store == s && r.notices == []
    ensures r.result.Ok? ==> loanId in s.loans
    ensures r.result.Ok? ==>
      r.notices == (if damaged then [] else LegacyBookService.NotifyBookAvailable(s, s.loans[loanId].bookId))
  {
    match LoanService.GetLoan(s, loanId)
    case Err(e) => Refuse(s, e)
    case Ok(loan) =>
      if loan.returned then Refuse(s, AlreadyReturned)
      else
        var fine := LoanService.CalculateFine(today, loan.dueDate);
        var saved := SaveLoanRecord(defs, s, Some(loanId), loan.(returned := true, returnedDate := Some(today)), today);
        match saved.result
        case Err(e) => Refuse(s, e)
        case Ok(_) =>
          var st := LegacyBookService.SetBookStatus(saved.store, loan.bookId, LoanService.ReturnedStatus(damaged));
          match st.result
          case Ok(_) => Step(st.store, Ok(LoanService.ReturnInfo(loanId, today, fine.fineAmount, fine.daysLate)), st.notices)
  }

  /** The older return writes what the newer one writes and answers the same;
      it differs only in the notification. */
  lemma ReturnLoanAgrees(defs: ModelDefs, s: Store, loanId: Id, damaged: bool, today: int)
    requires s.Valid()
    ensures var legacy := ReturnLoan(defs, s, loanId, damaged, today);
      var current := LoanService.ReturnLoan(defs, s, loanId, damaged, today);
      legacy.store == current.store && legacy.result == current.result
  {
  }

  /** `process_return`, run on the database. */
  method ProcessReturn(db: Database, defs: ModelDefs, loanId: Id, damaged: bool, today: int)
    returns (r: Result<LoanService.ReturnInfo>)
    requires db.State().Valid()
    modifies db
    ensures var step := ReturnLoan(defs, old(db.State()), loanId, damaged, today);
      db.State() == step.store && r == step.result && db.outbox == old(db.outbox) + step.notices
  {
    var got := LoanService.GetLoan(db.State(), loanId);
    if got.Err? {
      return Err(got.error);
    }
    var loan := got.value;
    if loan.returned {
      return Err(AlreadyReturned);
    }
    var fine := LoanService.CalculateFine(today, loan.dueDate);
    var saved := SaveLoan(db, defs, Some(loanId), loan.(returned := true, returnedDate := Some(today)), today);
    if saved.Err? {
      return Err(saved.error);
    }
    var st := LegacyBookService.UpdateBookStatus(db, loan.bookId, LoanService.ReturnedStatus(damaged));
    match st {
      case Ok(_) =>
        r := Ok(LoanService.ReturnInfo(loanId, today, fine.fineAmount, fine.daysLate));
    }
  }

  // ---------------------------------------------------------------------------
  // check_and_notify_due_loans

  /** Unreturned loans due in exactly three days. */
  function UpcomingDue(s: Store, today: int): (ids: set<Id>)
    ensures forall id :: id in ids <==> id in s.loans && !s.loans[id].returned && s.loans[id].dueDate == today + 3
  {
    set id | id in s.loans && !s.loans[id].returned && s.loans[id].dueDate == today + 3
  }

  /** Thirty or more days past the due date. */
  predicate LongOverdue(loan: Loan, today: int)
  {
    today - loan.dueDate >= 30
  }

  /** One reminder per loan, in the given order. */
  function Reminders(order: seq<Id>): (notices: seq<Notice>)
    ensures |notices| == |order|
    ensures forall i :: 0 <= i < |order| ==> notices[i] == DueReminder(order[i])
  {
    if order == [] then [] else [DueReminder(order[0])] + Reminders(order[1..])
  }

  /** Reminding one more loan appends its reminder to what was sent before. */
  lemma RemindersAppend(sent: seq<Notice>, order: seq<Id>, id: Id)
    ensures sent + Reminders(order + [id]) == sent + Reminders(order) + [DueReminder(id)]
  {
  }

  /** For each overdue loan in the given order, an overdue notice followed by
      a long-overdue notice when it is thirty or more days late. */
  function OverdueNotices(s: Store, order: seq<Id>, today: int): seq<Notice>
  {
    if order == [] then []
    else
      [OverdueNotice(order[0])]
      + (if order[0] in s.loans && LongOverdue(s.loans[order[0]], today) then [LongOverdueNotice(order[0])] else [])
      + OverdueNotices(s, order[1..], today)
  }

  /** Every loan of the order gets exactly its overdue notice, and a
      long-overdue notice exactly when it is thirty or more days late. */
  lemma {:induction false} OverdueNoticesMention(s: Store, order: seq<Id>, today: int, id: Id)
    ensures OverdueNotice(id) in OverdueNotices(s, order, today) <==> id in order
    ensures LongOverdueNotice(id) in OverdueNotices(s, order, today) <==>
      id in order && id in s.loans && LongOverdue(s.loans[id], today)
    ensures forall n :: n in OverdueNotices(s, order, today) ==> n.OverdueNotice? || n.LongOverdueNotice?
  {
    if order != [] {
      OverdueNoticesMention(s, order[1..], today, id);
      assert order == [order[0]] + order[1..];
    }
  }

  /** `ids` listed once each, in some order. */
  predicate Enumerates(order: seq<Id>, ids: set<Id>)
  {
    multiset(order) == multiset(ids)
  }

  /** Walking the queries in any order, exactly the loans due in three days
      are reminded, exactly the overdue loans are warned, and exactly those
      thirty or more days late are warned twice. */
  lemma {:induction false} DueNoticesExact(s: Store, reminded: seq<Id>, warned: seq<Id>, today: int, id: Id)
    requires Enumerates(reminded, UpcomingDue(s, today))
    requires Enumerates(warned, GetOverdueLoans(s, today))
    ensures DueReminder(id) in Reminders(reminded) <==>
      id in s.loans && !s.loans[id].returned && s.loans[id].dueDate == today + 3
    ensures OverdueNotice(id) in OverdueNotices(s, warned, today) <==>
      id in s.loans && !s.loans[id].returned && s.loans[id].dueDate < today
    ensures LongOverdueNotice(id) in OverdueNotices(s, warned, today) <==>
      id in s.loans && !s.loans[id].returned && today - s.loans[id].dueDate >= 30
  {
    assert id in reminded <==> id in multiset(reminded);
    assert id in warned <==> id in multiset(warned);
    assert DueReminder(id) in Reminders(reminded) <==> id in reminded;
    OverdueNoticesMention(s, warned, today, id);
  }

  /** Listing one more id extends the enumeration of the ids listed so far. */
  lemma EnumeratesStep(order: seq<Id>, done: set<Id>, id: Id)
    requires Enumerates(order, done) && id !in done
    ensures Enumerates(order + [id], done + {id})
  {
  }

  /** `check_and_notify_due_loans`: a reminder for every loan due in three
      days, then for every overdue loan an overdue notice and, at thirty or
      more days, a long-overdue notice. The database is only read. `reminded`
      and `warned` are the orders in which the two queries were walked. */
  method CheckAndNotifyDueLoans(db: Database, today: int) returns (ghost reminded: seq<Id>, ghost warned: seq<Id>)
    modifies db`outbox
    ensures Enumerates(reminded, UpcomingDue(db.State(), today))
    ensures Enumerates(warned, GetOverdueLoans(db.State(), today))
    ensures db.outbox == old(db.outbox) + Reminders(reminded) + OverdueNotices(db.State(), warned, today)
  {
    reminded := SendReminders(db, today);
    warned := SendOverdueNotices(db, today);
  }

  /** The first loop of `check_and_notify_due_loans`. */
  method SendReminders(db: Database, today: int) returns (ghost reminded: seq<Id>)
    modifies db`outbox
    ensures Enumerates(reminded, UpcomingDue(db.State(), today))
    ensures db.outbox == old(db.outbox) + Reminders(reminded)
  {
    ghost var s := db.State();
    ghost var sent := db.outbox;
    var todo := UpcomingDue(s, today);
    ghost var due := todo;
    ghost var done: set<Id> := {};
    reminded := [];
    while todo != {}
      invariant todo !! done && todo + done == due
      invariant Enumerates(reminded, done)
      invariant db.outbox == sent + Reminders(reminded)
      decreases |todo|
    {
      var id :| id in todo;
      EnumeratesStep(reminded, done, id);
      RemindersAppend(sent, reminded, id);
      db.outbox := db.outbox + [DueReminder(id)];
      reminded := reminded + [id];
      todo := todo - {id};
      done := done + {id};
    }
  }

  /** The second loop of `check_and_notify_due_loans`. */
  method SendOverdueNotices(db: Database, today: int) returns (ghost warned: seq<Id>)
    modifies db`outbox
    ensures Enumerates(warned, GetOverdueLoans(db.State(), today))
    ensures db.outbox == old(db.outbox) + OverdueNotices(db.State(), warned, today)
  {
    ghost var s := db.State();
    ghost var sent := db.outbox;
    var todo := GetOverdueLoans(s, today);
    ghost var overdue := todo;
    ghost var done: set<Id> := {};
    warned := [];
    while todo != {}
      invariant todo !! done && todo + done == overdue
      invariant forall id :: id in overdue ==> id in s.loans
      invariant Enumerates(warned, done)
      invariant db.outbox == sent + OverdueNotices(s, warned, today)
      decreases |todo|
    {
      var id :| id in todo;
      EnumeratesStep(warned, done, id);
      var block := [OverdueNotice(id)] + (if LongOverdue(s.loans[id], today) then [LongOverdueNotice(id)] else []);
      OverdueBlockSent(sent, s, warned, id, today);
      db.outbox := db.outbox + block;
      warned := warned + [id];
      todo := todo - {id};
      done := done + {id};
    }
  }

  /** Warning one more overdue loan appends its block to what was sent before. */
  lemma OverdueBlockSent(sent: seq<Notice>, s: Store, order: seq<Id>, id: Id, today: int)
    requires id in s.loans
    ensures sent + OverdueNotices(s, order + [id], today)
         == sent + OverdueNotices(s, order, today)
            + ([OverdueNotice(id)] + (if LongOverdue(s.loans[id], today) then [LongOverdueNotice(id)] else []))
  {
    OverdueNoticesAppend(s, order, id, today);
  }

  /** Walking one more overdue loan appends its block of notices. */
  lemma {:induction false} OverdueNoticesAppend(s: Store, order: seq<Id>, id: Id, today: int)
    requires id in s.loans
    ensures OverdueNotices(s, order + [id], today)
         == OverdueNotices(s, order, today)
            + [OverdueNotice(id)] + (if LongOverdue(s.loans[id], today) then [LongOverdueNotice(id)] else [])
  {
    if order != [] {
      assert (order + [id])[1..] == order[1..] + [id];
      OverdueNoticesAppend(s, order[1..], id, today);
    }
  }
}

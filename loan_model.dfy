/** The `Loan` model class: its `clean` checks and the book-status transitions
    its `save` performs. The repository defines it twice, in `models.py` and in
    the `models/` package; which definition is in force is a parameter. */
module LoanModel {
  import opened Store

  /** Which definition of the model classes is in force. `PackageModelsCorrected`
      is the package's definition with the due-date check limited to new loans,
      as the other checks of the same `clean` are. */
  datatype ModelDefs = ModuleModels | PackageModels | PackageModelsCorrected

  /** Only the package's `Loan.save` calls `clean` before writing. */
  predicate SaveRunsClean(defs: ModelDefs)
  {
    !defs.ModuleModels?
  }

  /** Whether `clean`'s due-date check applies to a loan that already has an id. */
  predicate DueDateCheckedOnUpdate(defs: ModelDefs)
  {
    !defs.PackageModelsCorrected?
  }

  /** `Loan.clean`: `None` when the instance passes, otherwise the first check
      that fails. `id` is the instance's primary key (`None` for a new loan). */
  function LoanClean(defs: ModelDefs, s: Store, id: Option<Id>, loan: Loan, today: int): (e: Option<Error>)
    requires loan.bookId in s.books
    ensures e.None? <==>
      && (id.None? ==> s.books[loan.bookId].status == AVAILABLE)
      && (loan.dueDate < today ==> id.Some? && !DueDateCheckedOnUpdate(defs))
      && (id.None? && !defs.ModuleModels? ==> CountActive(s.loans, loan.userId) < MAX_LOANS)
    ensures id.None? && s.books[loan.bookId].status != AVAILABLE ==> e == Some(BookNotAvailable)
    ensures e == Some(LoanLimitReached) ==> id.None? && !defs.ModuleModels? && loan.dueDate >= today
    ensures e == Some(DueDateInPast) ==> loan.dueDate < today
    ensures e.Some? ==> e.value in {BookNotAvailable, DueDateInPast, LoanLimitReached}
  {
    if s.books[loan.bookId].status != AVAILABLE && id.None? then Some(BookNotAvailable)
    else if loan.dueDate < today && (DueDateCheckedOnUpdate(defs) || id.None?) then Some(DueDateInPast)
    else if !defs.ModuleModels? && CountActive(s.loans, loan.userId) >= MAX_LOANS && id.None? then Some(LoanLimitReached)
    else None
  }

  /** The effect of `Loan.save` on the store: a new loan is inserted under the
      next id and its book becomes `borrowed`; an existing one is overwritten,
      and in the package's definition a loan saved as returned without a
      returned date is stamped with today and its book becomes `available`. */
  function SaveLoanRecord(defs: ModelDefs, s: Store, id: Option<Id>, loan: Loan, today: int): (r: Step<Id>)
    requires s.Valid() && loan.bookId in s.books && loan.userId in s.users
    requires id.Some? ==> id.value in s.loans
    ensures r.store.Valid() && r.notices == []
    ensures r.result.Err? <==> SaveRunsClean(defs) && LoanClean(defs, s, id, loan, today).Some?
    ensures r.result.Err? ==> r.store == s && r.result.error == LoanClean(defs, s, id, loan, today).value
    ensures r.store.users == s.users && r.store.reservations == s.reservations
    ensures r.store.reservationSeq == s.reservationSeq
    ensures r.store.books.Keys == s.books.Keys
    ensures forall b :: b in s.books && b != loan.bookId ==> r.store.books[b] == s.books[b]
    ensures r.result.Ok? ==> r.result.value >= 1  // a saved record's id is truthy
    ensures r.result.Ok? && id.None? ==>
      && r.result.value == s.loanSeq && r.result.value !in s.loans
      && r.store.loans == s.loans[r.result.value := loan]
      && r.store.loanSeq == s.loanSeq + 1
      && r.store.books == s.books[loan.bookId := s.books[loan.bookId].(status := BORROWED)]
    ensures r.result.Ok? && id.Some? ==> r.result.value == id.value && r.store.loanSeq == s.loanSeq
    ensures r.result.Ok? && id.Some? && !defs.ModuleModels? && loan.returned && loan.returnedDate.None? ==>
      && r.store.loans == s.loans[id.value := loan.(returnedDate := Some(today))]
      && r.store.books == s.books[loan.bookId := s.books[loan.bookId].(status := AVAILABLE)]
    ensures r.result.Ok? && id.Some? && !(!defs.ModuleModels? && loan.returned && loan.returnedDate.None?) ==>
      && r.store.loans == s.loans[id.value := loan]
      && r.store.books == s.books
  {
    var e := if SaveRunsClean(defs) then LoanClean(defs, s, id, loan, today) else None;
    if e.Some? then Refuse(s, e.value)
    else match id
      case None =>
        var s1 := WithStatus(s, loan.bookId, BORROWED);
        Step(s1.(loans := s1.loans[s.loanSeq := loan], loanSeq := s.loanSeq + 1), Ok(s.loanSeq), [])
      case Some(k) =>
        if !defs.ModuleModels? && loan.returned && loan.returnedDate.None? then
          var s1 := WithStatus(s, loan.bookId, AVAILABLE);
          Step(s1.(loans := s1.loans[k := loan.(returnedDate := Some(today))]), Ok(k), [])
        else
          Step(s.(loans := s.loans[k := loan]), Ok(k), [])
  }

  /** In `models.py`, `Loan.save` never calls `clean`: every save goes through,
      whatever the book's status or the due date. */
  lemma ModuleSaveSkipsClean(s: Store, id: Option<Id>, loan: Loan, today: int)
    requires s.Valid() && loan.bookId in s.books && loan.userId in s.users
    requires id.Some? ==> id.value in s.loans
    ensures SaveLoanRecord(ModuleModels, s, id, loan, today).result.Ok?
    ensures id.Some? ==> SaveLoanRecord(ModuleModels, s, id, loan, today).store.books == s.books
  {
  }

  /** `Loan.save`, run on the database. */
  method SaveLoan(db: Database, defs: ModelDefs, id: Option<Id>, loan: Loan, today: int) returns (r: Result<Id>)
    requires db.State().Valid() && loan.bookId in db.books && loan.userId in db.users
    requires id.Some? ==> id.value in db.loans
    modifies db`books, db`loans, db`loanSeq
    ensures Step(db.State(), r, []) == SaveLoanRecord(defs, old(db.State()), id, loan, today)
    ensures db.outbox == old(db.outbox)
  {
    if SaveRunsClean(defs) {
      var e := LoanClean(defs, db.State(), id, loan, today);
      if e.Some? {
        return Err(e.value);
      }
    }
    match id {
      case None =>
        var k := InsertLoan(db, loan);
        r := Ok(k);
      case Some(k) =>
        UpdateLoan(db, defs, k, loan, today);
        r := Ok(k);
    }
  }

  /** The insert branch of `Loan.save`: the book is set to `borrowed`, then
      the loan is written under the next id. */
  method InsertLoan(db: Database, loan: Loan) returns (k: Id)
    requires loan.bookId in db.books
    modifies db`books, db`loans, db`loanSeq
    ensures k == old(db.loanSeq)
    ensures db.State() == WithStatus(old(db.State()), loan.bookId, BORROWED).(loans := old(db.loans)[k := loan], loanSeq := k + 1)
  {
    db.SetBookStatus(loan.bookId, BORROWED);
    k := db.loanSeq;
    db.loans, db.loanSeq := db.loans[k := loan], k + 1;
  }

  /** The update branch of `Loan.save`: in the package's definition, a loan
      saved as returned without a returned date is stamped and its book
      becomes `available`; otherwise the row is overwritten. */
  method UpdateLoan(db: Database, defs: ModelDefs, k: Id, loan: Loan, today: int)
    requires loan.bookId in db.books
    modifies db`books, db`loans
    ensures !defs.ModuleModels? && loan.returned && loan.returnedDate.None? ==>
      db.State() == WithStatus(old(db.State()), loan.bookId, AVAILABLE).(loans := old(db.loans)[k := loan.(returnedDate := Some(today))])
    ensures !(!defs.ModuleModels? && loan.returned && loan.returnedDate.None?) ==>
      db.State() == old(db.State()).(loans := old(db.loans)[k := loan])
  {
    if !defs.ModuleModels? && loan.returned && loan.returnedDate.None? {
      db.SetBookStatus(loan.bookId, AVAILABLE);
      db.loans := db.loans[k := loan.(returnedDate := Some(today))];
    } else {
      db.loans := db.loans[k := loan];
    }
  }
}

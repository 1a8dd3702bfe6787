/** The `Reservation` model class: `clean` (the book must not be available,
    no second active reservation of the same book by the same user) and
    `save`, which always runs `clean` before writing. `models.py` and the
    `models/` package run the two checks in opposite orders. */
module ReservationModel {
  import opened Store
  import opened LoanModel

  /** `Reservation.objects.filter(book=b, user=u, active=True)` */
  function ActiveReservationsBy(rs: map<Id, Reservation>, bookId: Id, userId: Id): (ids: set<Id>)
    ensures forall id :: id in ids <==>
      id in rs && rs[id].bookId == bookId && rs[id].userId == userId && rs[id].active
  {
    set id | id in rs && rs[id].bookId == bookId && rs[id].userId == userId && rs[id].active
  }

  /** At most one active reservation per user and book. */
  ghost predicate NoDuplicateActive(rs: map<Id, Reservation>)
  {
    forall a, b ::
      a in rs && b in rs && a != b && rs[a].active && rs[b].active && rs[a].bookId == rs[b].bookId
      ==> rs[a].userId != rs[b].userId
  }

  /** `Reservation.clean`: `None` when the instance passes, otherwise the
      first check that fails. The duplicate check only concerns a new, active
      reservation. */
  function ReservationClean(defs: ModelDefs, s: Store, id: Option<Id>, res: Reservation): (e: Option<Error>)
    requires res.bookId in s.books
    ensures e.None? <==>
      && s.books[res.bookId].status != AVAILABLE
      && !(res.active && id.None? && ActiveReservationsBy(s.reservations, res.bookId, res.userId) != {})
    ensures !defs.ModuleModels? && s.books[res.bookId].status == AVAILABLE ==> e == Some(AvailableForDirectLoan)
    ensures defs.ModuleModels? && res.active && id.None?
      && ActiveReservationsBy(s.reservations, res.bookId, res.userId) != {}
      ==> e == Some(DuplicateReservation)
    ensures e == Some(DuplicateReservation) ==> res.active && id.None?
    ensures e.Some? ==> e.value in {AvailableForDirectLoan, DuplicateReservation}
  {
    var available := s.books[res.bookId].status == AVAILABLE;
    var duplicate := res.active && ActiveReservationsBy(s.reservations, res.bookId, res.userId) != {} && id.None?;
    if defs.ModuleModels? then
      if duplicate then Some(DuplicateReservation)
      else if available then Some(AvailableForDirectLoan)
      else None
    else
      if available then Some(AvailableForDirectLoan)
      else if duplicate then Some(DuplicateReservation)
      else None
  }

  /** The effect of `Reservation.save`: `clean`, then insert a new record under
      the next id or overwrite the existing one. */
  function SaveReservationRecord(defs: ModelDefs, s: Store, id: Option<Id>, res: Reservation): (r: Step<Id>)
    requires s.Valid() && res.bookId in s.books && res.userId in s.users
    requires id.Some? ==> id.value in s.reservations
    ensures r.store.Valid() && r.notices == []
    ensures r.result.Err? <==> ReservationClean(defs, s, id, res).Some?
    ensures r.result.Err? ==> r.store == s && r.result.error == ReservationClean(defs, s, id, res).value
    ensures r.result.Ok? ==> s.books[res.bookId].status != AVAILABLE
    ensures r.store.users == s.users && r.store.books == s.books && r.store.loans == s.loans
    ensures r.store.loanSeq == s.loanSeq
    ensures r.result.Ok? ==> r.result.value >= 1  // a saved record's id is truthy
    ensures r.result.Ok? && id.None? ==>
      && r.result.value == s.reservationSeq && r.result.value !in s.reservations
      && r.store.reservations == s.reservations[r.result.value := res]
      && r.store.reservationSeq == s.reservationSeq + 1
    ensures r.result.Ok? && id.Some? ==>
      && r.result.value == id.value
      && r.store.reservations == s.reservations[id.value := res]
      && r.store.reservationSeq == s.reservationSeq
  {
    var e := ReservationClean(defs, s, id, res);
    if e.Some? then Refuse(s, e.value)
    else match id
      case None =>
        Step(s.(reservations := s.reservations[s.reservationSeq := res], reservationSeq := s.reservationSeq + 1),
             Ok(s.reservationSeq), [])
      case Some(k) =>
        Step(s.(reservations := s.reservations[k := res]), Ok(k), [])
  }

  /** Creating a reservation (`Reservation.objects.create`, which saves) never
      gives a user a second active reservation of the same book. */
  lemma CreateKeepsNoDuplicateActive(defs: ModelDefs, s: Store, res: Reservation)
    requires s.Valid() && res.bookId in s.books && res.userId in s.users
    requires NoDuplicateActive(s.reservations)
    ensures NoDuplicateActive(SaveReservationRecord(defs, s, None, res).store.reservations)
  {
  }

  /** `Reservation.save`, run on the database. */
  method SaveReservation(db: Database, defs: ModelDefs, id: Option<Id>, res: Reservation) returns (r: Result<Id>)
    requires db.State().Valid() && res.bookId in db.books && res.userId in db.users
    requires id.Some? ==> id.value in db.reservations
    modifies db
    ensures Step(db.State(), r, []) == SaveReservationRecord(defs, old(db.State()), id, res)
    ensures db.outbox == old(db.outbox)
  {
    var e := ReservationClean(defs, db.State(), id, res);
    if e.Some? {
      return Err(e.value);
    }
    match id {
      case None =>
        r := Ok(db.reservationSeq);
        db.reservations := db.reservations[db.reservationSeq := res];
        db.reservationSeq := db.reservationSeq + 1;
      case Some(k) =>
        db.reservations := db.reservations[k := res];
        r := Ok(k);
    }
  }
}

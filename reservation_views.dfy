/** The two custom actions of `ReservationViewSet` in
    `views/reservation_views.py`: `cancel` and `active`. */
module ReservationViews {
  import opened Store
  import opened LoanModel
  import opened ReservationModel

  /** The `active` action: every active reservation, of any book and user. */
  function ActiveReservations(s: Store): (ids: set<Id>)
    ensures forall id :: id in ids <==> id in s.reservations && s.reservations[id].active
  {
    set id | id in s.reservations && s.reservations[id].active
  }

  /** The effect of the `cancel` action as written: an unknown reservation
      answers 404, an inactive one is refused, otherwise the reservation is
      saved as inactive. The save runs `Reservation.clean`, whose availability
      check refuses the cancellation while the book is `available`. */
  function CancelReservation(defs: ModelDefs, s: Store, resId: Id): (r: Step<Reservation>)
    requires s.Valid()
    ensures r.store.Valid() && r.notices == []
    ensures resId !in s.reservations ==> r.result == Err(ReservationNotFound)
    ensures resId in s.reservations && !s.reservations[resId].active ==> r.result == Err(AlreadyCancelled)
    ensures resId in s.reservations && s.reservations[resId].active
      && s.books[s.reservations[resId].bookId].status == AVAILABLE
      ==> r.result == Err(AvailableForDirectLoan)
    ensures r.result.Err? ==> r.store == s
    ensures r.result.Ok? <==>
      resId in s.reservations && s.reservations[resId].active
      && s.books[s.reservations[resId].bookId].status != AVAILABLE
    ensures r.result.Ok? ==>
      && r.result.value == s.reservations[resId].(active := false)
      && r.store == s.(reservations := s.reservations[resId := r.result.value])
  {
    if resId !in s.reservations then Refuse(s, ReservationNotFound)
    else
      var res := s.reservations[resId];
      if !res.active then Refuse(s, AlreadyCancelled)
      else
        var cancelled := res.(active := false);
        var saved := SaveReservationRecord(defs, s, Some(resId), cancelled);
        match saved.result
        case Err(e) => Refuse(s, e)
        case Ok(_) => Step(saved.store, Ok(cancelled), [])
  }

  /** A reservation can be cancelled once; the second request is refused. */
  lemma SecondCancelRefused(defs: ModelDefs, s: Store, resId: Id)
    requires s.Valid()
    requires CancelReservation(defs, s, resId).result.Ok?
    ensures CancelReservation(defs, CancelReservation(defs, s, resId).store, resId).result == Err(AlreadyCancelled)
  {
  }

  /** Cancelling takes the reservation out of the `active` listing and
      nothing else. */
  lemma CancelLeavesActiveListing(defs: ModelDefs, s: Store, resId: Id)
    requires s.Valid()
    requires CancelReservation(defs, s, resId).result.Ok?
    ensures ActiveReservations(CancelReservation(defs, s, resId).store) == ActiveReservations(s) - {resId}
  {
  }

  /** Cancelling never creates a second active reservation of a book for a user. */
  lemma CancelKeepsNoDuplicateActive(defs: ModelDefs, s: Store, resId: Id)
    requires s.Valid() && NoDuplicateActive(s.reservations)
    ensures NoDuplicateActive(CancelReservation(defs, s, resId).store.reservations)
  {
  }

  /** The `cancel` action, run on the database. */
  method Cancel(db: Database, defs: ModelDefs, resId: Id) returns (r: Result<Reservation>)
    requires db.State().Valid()
    modifies db
    ensures Step(db.State(), r, []) == CancelReservation(defs, old(db.State()), resId)
    ensures db.outbox == old(db.outbox)
  {
    if resId !in db.reservations {
      return Err(ReservationNotFound);
    }
    var res := db.reservations[resId];
    if !res.active {
      return Err(AlreadyCancelled);
    }
    var cancelled := res.(active := false);
    var saved := SaveReservation(db, defs, Some(resId), cancelled);
    if saved.Err? {
      return Err(saved.error);
    }
    r := Ok(cancelled);
  }

  /** A reader waiting for a book cannot withdraw once the book is back on
      the shelf: the cancellation is refused, whichever model definitions are
      in force, and the reservation stays active. */
  lemma {:induction false} CancelRefusedOnceAvailable(defs: ModelDefs, s: Store, resId: Id)
    requires s.Valid() && resId in s.reservations && s.reservations[resId].active
    requires s.books[s.reservations[resId].bookId].status == AVAILABLE
    ensures CancelReservation(defs, s, resId).result == Err(AvailableForDirectLoan)
    ensures resId in ActiveReservations(CancelReservation(defs, s, resId).store)
  {
  }

  /** The cancellation as intended: the availability check, which concerns
      making a reservation, does not apply to withdrawing one. */
  function CancelReservationIntended(s: Store, resId: Id): (r: Step<Reservation>)
    requires s.Valid()
    ensures r.store.Valid() && r.notices == []
    ensures resId !in s.reservations ==> r.result == Err(ReservationNotFound)
    ensures resId in s.reservations && !s.reservations[resId].active ==> r.result == Err(AlreadyCancelled)
    ensures r.result.Err? ==> r.store == s
    ensures r.result.Ok? <==> resId in s.reservations && s.reservations[resId].active
    ensures r.result.Ok? ==>
      && r.result.value == s.reservations[resId].(active := false)
      && r.store == s.(reservations := s.reservations[resId := r.result.value])
  {
    if resId !in s.reservations then Refuse(s, ReservationNotFound)
    else
      var res := s.reservations[resId];
      if !res.active then Refuse(s, AlreadyCancelled)
      else
        var cancelled := res.(active := false);
        Step(s.(reservations := s.reservations[resId := cancelled]), Ok(cancelled), [])
  }

  /** The intended cancellation always withdraws an active reservation, and
      agrees with the one as written wherever that one goes through. */
  lemma IntendedCancelAgrees(defs: ModelDefs, s: Store, resId: Id)
    requires s.Valid()
    ensures CancelReservation(defs, s, resId).result.Ok? ==>
      CancelReservationIntended(s, resId) == CancelReservation(defs, s, resId)
    ensures resId in s.reservations && s.reservations[resId].active ==>
      resId !in ActiveReservations(CancelReservationIntended(s, resId).store)
  {
  }
}

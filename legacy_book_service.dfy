/** The status-related part of `BookService` in `services/book_service.py`:
    a status change that tells the first waiting reader when the book becomes
    available, the availability check and the reservation queue query. Its
    lookup, update, deletion and search are those of `BookCatalog`. */
module LegacyBookService {
  import opened Store
  import opened ReservationQueue

  /** `_notify_book_available`: a notice to the user holding the earliest
      active reservation of the book, none when nobody waits. The reservation
      itself stays active. */
  function NotifyBookAvailable(s: Store, bookId: Id): (notices: seq<Notice>)
    ensures |notices| <= 1
    ensures notices == [] <==> ActiveFor(s.reservations, bookId) == {}
    ensures notices != [] ==>
      exists h :: h in ActiveFor(s.reservations, bookId)
        && notices[0] == BookAvailableNotice(bookId, s.reservations[h].userId)
        && forall id :: id in ActiveFor(s.reservations, bookId) ==>
             s.reservations[h].reservationDate <= s.reservations[id].reservationDate
  {
    match HeadOfQueue(s, bookId)
    case None => []
    case Some(h) => [BookAvailableNotice(bookId, s.reservations[h].userId)]
  }

  /** The effect of `update_book_status`: an unknown status is refused before
      the book is looked up; otherwise the book gets exactly that status and,
      when it is `available`, the first waiting reader is told. */
  function SetBookStatus(s: Store, bookId: Id, status: string): (r: Step<Book>)
    requires s.Valid()
    ensures r.store.Valid()
    ensures !IsValidStatus(status) ==> r.result == Err(InvalidStatus)
    ensures IsValidStatus(status) && bookId !in s.books ==> r.result == Err(BookNotFound)
    ensures r.result.Err? ==> r.store == s && r.notices == []
    ensures r.result.Ok? <==> IsValidStatus(status) && bookId in s.books
    ensures r.result.Ok? ==>
      && r.result.value == s.books[bookId].(status := status)
      && r.store == WithStatus(s, bookId, status)
      && r.notices == (if status == AVAILABLE then NotifyBookAvailable(s, bookId) else [])
  {
    if !IsValidStatus(status) then Refuse(s, InvalidStatus)
    else if bookId !in s.books then Refuse(s, BookNotFound)
    else
      var t := WithStatus(s, bookId, status);
      Step(t, Ok(t.books[bookId]), if status == AVAILABLE then NotifyBookAvailable(t, bookId) else [])
  }

  /** A status change never deactivates, adds or reorders reservations: a
      reader told that the book is available stays at the head of the queue. */
  lemma StatusChangeKeepsQueue(s: Store, bookId: Id, status: string, other: Id)
    requires s.Valid()
    ensures GetActiveReservations(SetBookStatus(s, bookId, status).store, other) == GetActiveReservations(s, other)
  {
  }

  /** `update_book_status`, run on the database. */
  method UpdateBookStatus(db: Database, bookId: Id, status: string) returns (r: Result<Book>)
    requires db.State().Valid()
    modifies db
    ensures var step := SetBookStatus(old(db.State()), bookId, status);
      db.State() == step.store && r == step.result && db.outbox == old(db.outbox) + step.notices
  {
    if !IsValidStatus(status) {
      return Err(InvalidStatus);
    }
    if bookId !in db.books {
      return Err(BookNotFound);
    }
    db.SetBookStatus(bookId, status);
    if status == AVAILABLE {
      var head := HeadOfQueue(db.State(), bookId);
      if head.Some? {
        db.outbox := db.outbox + [BookAvailableNotice(bookId, db.reservations[head.value].userId)];
      }
    }
    r := Ok(db.books[bookId]);
  }

  /** `check_availability`: whether the book's status is `available`. */
  function CheckAvailability(s: Store, bookId: Id): (r: Result<bool>)
    ensures r.Err? <==> bookId !in s.books
    ensures r.Err? ==> r.error == BookNotFound
    ensures r.Ok? ==> (r.value <==> s.books[bookId].status == AVAILABLE)
  {
    if bookId !in s.books then Err(BookNotFound) else Ok(s.books[bookId].status == AVAILABLE)
  }
}

/** `BookAvailabilityService` of `services/book/book_availability_service.py`.
    Its `update_book_status` and `check_availability` call `self.get_book_by_id`,
    which the class never defines: both end in an `AttributeError` once the
    status has been validated. The members below model the class as written;
    `UpdateBookStatusIntended` and `CheckAvailabilityIntended` model it with
    the catalog's lookup in place of the missing method. Its
    `get_active_reservations` is the query of `ReservationQueue`. */
module BookAvailability {
  import opened Store
  import BookCatalog
  import LegacyBookService

  /** `update_book_status` as written: an unknown status is refused; any
      valid status then fails on the missing method, and nothing is written. */
  function UpdateBookStatus(s: Store, bookId: Id, status: string): (r: Result<Book>)
    ensures r.Err?
    ensures r.error == InvalidStatus <==> !IsValidStatus(status)
    ensures IsValidStatus(status) ==> r.error == MissingMethod
  {
    if !IsValidStatus(status) then Err(InvalidStatus) else Err(MissingMethod)
  }

  /** `check_availability` as written: always the missing method. */
  function CheckAvailability(s: Store, bookId: Id): (r: Result<bool>)
    ensures r == Err(MissingMethod)
  {
    Err(MissingMethod)
  }

  /** `update_book_status` with the book looked up: the status check first,
      then the lookup, then exactly the status assigned. Unlike the older
      service's, it tells nobody. */
  function UpdateBookStatusIntended(s: Store, bookId: Id, status: string): (r: Step<Book>)
    requires s.Valid()
    ensures r.store.Valid() && r.notices == []
    ensures !IsValidStatus(status) ==> r.result == Err(InvalidStatus)
    ensures r.result.Err? ==> r.store == s
    ensures r.result.Ok? <==> IsValidStatus(status) && bookId in s.books
    ensures r.result.Ok? ==> r.store == WithStatus(s, bookId, status) && r.result.value.status == status
  {
    if !IsValidStatus(status) then Refuse(s, InvalidStatus)
    else match BookCatalog.GetBookById(s, bookId)
      case Err(e) => Refuse(s, e)
      case Ok(b) => Step(WithStatus(s, bookId, status), Ok(b.(status := status)), [])
  }

  /** The intended status change has the older service's effect on the store
      and its answer, and differs only in sending no notification. */
  lemma IntendedMatchesLegacyButSilent(s: Store, bookId: Id, status: string)
    requires s.Valid()
    ensures var mine := UpdateBookStatusIntended(s, bookId, status);
      var legacy := LegacyBookService.SetBookStatus(s, bookId, status);
      mine.store == legacy.store && mine.result == legacy.result && mine.notices == []
  {
  }

  /** As written, the class never changes a status that the older service
      would have changed. */
  lemma AsWrittenNeverUpdates(s: Store, bookId: Id, status: string)
    requires s.Valid()
    requires UpdateBookStatusIntended(s, bookId, status).result.Ok?
    ensures UpdateBookStatus(s, bookId, status) == Err(MissingMethod)
  {
  }

  /** `check_availability` with the book looked up. */
  function CheckAvailabilityIntended(s: Store, bookId: Id): (r: Result<bool>)
    ensures r.Err? <==> bookId !in s.books
    ensures r.Ok? ==> (r.value <==> s.books[bookId].status == AVAILABLE)
  {
    match BookCatalog.GetBookById(s, bookId)
    case Err(e) => Err(e)
    case Ok(b) => Ok(b.status == AVAILABLE)
  }
}

/** The order in which a book's active reservations are served:
    `Reservation.objects.filter(book_id=b, active=True).order_by('reservation_date')`.
    Two reservations with the same date are ordered by id. */
module ReservationQueue {
  import opened Store

  /** `a` is served no later than `b`: earlier date, or the same date and a
      smaller id. A total order on the reservation ids. */
  predicate Precedes(rs: map<Id, Reservation>, a: Id, b: Id)
    requires a in rs && b in rs
  {
    rs[a].reservationDate < rs[b].reservationDate ||
    (rs[a].reservationDate == rs[b].reservationDate && a <= b)
  }

  /** Every non-empty finite set of reservations has a first one. */
  lemma {:induction false} FirstExists(rs: map<Id, Reservation>, ids: set<Id>)
    requires ids != {} && ids <= rs.Keys
    ensures exists h :: h in ids && forall y :: y in ids ==> Precedes(rs, h, y)
    decreases |ids|
  {
    var x :| x in ids;
    var rest := ids - {x};
    if rest == {} {
      assert ids == {x};
    } else {
      FirstExists(rs, rest);
      var h :| h in rest && forall y :: y in rest ==> Precedes(rs, h, y);
      if Precedes(rs, h, x) {
        assert forall y :: y in ids ==> y == x || y in rest;
      } else {
        forall y | y in ids ensures Precedes(rs, x, y) {
          if y != x {
            assert Precedes(rs, h, y);
          }
        }
      }
    }
  }

  /** The reservation of `ids` that is served first. */
  function First(rs: map<Id, Reservation>, ids: set<Id>): (h: Id)
    requires ids != {} && ids <= rs.Keys
    ensures h in ids && forall y :: y in ids ==> Precedes(rs, h, y)
  {
    FirstExists(rs, ids);
    var h :| h in ids && forall y :: y in ids ==> Precedes(rs, h, y);
    h
  }

  /** `q` lists every reservation of `ids` exactly once, in serving order. */
  predicate InServingOrder(rs: map<Id, Reservation>, ids: set<Id>, q: seq<Id>)
    requires ids <= rs.Keys
  {
    && |q| == |ids|
    && (forall i :: 0 <= i < |q| ==> q[i] in ids)
    && (forall y :: y in ids ==> y in q)
    && (forall i, j :: 0 <= i < j < |q| ==> q[i] != q[j] && Precedes(rs, q[i], q[j]))
  }

  /** The first reservation followed by the others in serving order is all
      of them in serving order. */
  lemma PrependFirst(rs: map<Id, Reservation>, ids: set<Id>, h: Id, tail: seq<Id>)
    requires ids <= rs.Keys && h in ids
    requires forall y :: y in ids ==> Precedes(rs, h, y)
    requires InServingOrder(rs, ids - {h}, tail)
    ensures InServingOrder(rs, ids, [h] + tail)
  {
  }

  /** `ids` in serving order. */
  function Queue(rs: map<Id, Reservation>, ids: set<Id>): (q: seq<Id>)
    requires ids <= rs.Keys
    ensures InServingOrder(rs, ids, q)
    decreases |ids|
  {
    if ids == {} then []
    else
      var h := First(rs, ids);
      var tail := Queue(rs, ids - {h});
      PrependFirst(rs, ids, h, tail);
      [h] + tail
  }

  /** The ids of the book's active reservations. */
  function ActiveFor(rs: map<Id, Reservation>, bookId: Id): (ids: set<Id>)
    ensures ids <= rs.Keys
    ensures forall id :: id in ids <==> id in rs && rs[id].bookId == bookId && rs[id].active
  {
    set id | id in rs && rs[id].bookId == bookId && rs[id].active
  }

  /** `get_active_reservations(book_id)`: exactly the book's active
      reservations, each once, earliest first. */
  function GetActiveReservations(s: Store, bookId: Id): (q: seq<Id>)
    ensures forall i :: 0 <= i < |q| ==>
      q[i] in s.reservations && s.reservations[q[i]].bookId == bookId && s.reservations[q[i]].active
    ensures forall id ::
      id in s.reservations && s.reservations[id].bookId == bookId && s.reservations[id].active ==> id in q
    ensures forall i, j :: 0 <= i < j < |q| ==>
      q[i] != q[j] && s.reservations[q[i]].reservationDate <= s.reservations[q[j]].reservationDate
  {
    Queue(s.reservations, ActiveFor(s.reservations, bookId))
  }

  /** `.first()` of the queue above: the reservation whose user is told that
      the book is available, or `None` when nobody waits. */
  function HeadOfQueue(s: Store, bookId: Id): (h: Option<Id>)
    ensures h.None? <==> ActiveFor(s.reservations, bookId) == {}
    ensures h.Some? ==>
      && h.value in s.reservations && s.reservations[h.value].bookId == bookId && s.reservations[h.value].active
      && forall id :: id in ActiveFor(s.reservations, bookId) ==>
           s.reservations[h.value].reservationDate <= s.reservations[id].reservationDate
  {
    var q := GetActiveReservations(s, bookId);
    if q == [] then None else Some(q[0])
  }
}

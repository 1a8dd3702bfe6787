/** The persistent state of the library backend: users, books, loans and
    reservations, each a table from ids to records, as the Django models keep
    them. "Today" and "now" are passed in as integer day numbers. */
module Store {

  type Id = nat

  /** The four values of `Book.status` listed in the model's `choices`. The
      column itself is a free string: `update_book` can store anything. */
  const AVAILABLE: string := "available"
  const BORROWED: string := "borrowed"
  const LOST: string := "lost"
  const DAMAGED: string := "damaged"

  predicate IsValidStatus(status: string)
  {
    status == AVAILABLE || status == BORROWED || status == LOST || status == DAMAGED
  }

  /** The loan rules' constants, the same in every service and model. */
  const MAX_LOANS: nat := 5
  const LOAN_DAYS: nat := 15
  const GRACE_DAYS: nat := 2
  const DAILY_FINE: nat := 10

  datatype User = User(isActive: bool)

  datatype Book = Book(title: string, author: string, genre: string, code: string, status: string)

  datatype Loan = Loan(
    bookId: Id,
    userId: Id,
    loanDate: int,
    dueDate: int,
    returnedDate: Option<int>,
    returned: bool)

  datatype Reservation = Reservation(bookId: Id, userId: Id, reservationDate: int, active: bool)

  datatype Option<+T> = None | Some(value: T)

  /** One kind per place where the source raises (or answers with an error). */
  datatype Error =
    | UserNotFound            // "Usuario no encontrado"
    | UserInactive            // "El usuario no está activo"
    | BookNotFound            // "Libro no encontrado" / "El libro con ID .. no existe"
    | BookNotAvailable        // "El libro no está disponible para préstamo"
    | LoanLimitReached        // "El usuario ha alcanzado el límite de 5 préstamos"
    | LoanNotFound            // "Préstamo .. no encontrado"
    | AlreadyReturned         // "Este préstamo ya fue devuelto"
    | DueDateInPast           // "La fecha de devolución no puede ser anterior a hoy"
    | InvalidStatus           // "Estado inválido. Debe ser uno de: .."
    | HasActiveLoans          // "No se puede eliminar un libro con préstamos activos"
    | AvailableForDirectLoan  // "Este libro está disponible para préstamo directo"
    | DuplicateReservation    // "Ya tienes una reservación activa para este libro"
    | ReservationNotFound     // the viewset's get_object answers 404
    | AlreadyCancelled        // "La reservación ya está cancelada"
    | DuplicateCode           // the unique constraint on Book.code
    | MissingMethod           // AttributeError: a method the class never defines
    | UpdateFailed(cause: Error)  // "Error al actualizar el libro: .."

  datatype Result<+T> = Ok(value: T) | Err(error: Error)

  /** Messages handed to the notification layer; only who is told what is kept. */
  datatype Notice =
    | LoanIssued(loanId: Id, userId: Id)
    | BookAvailableNotice(bookId: Id, userId: Id)
    | DueReminder(loanId: Id)
    | OverdueNotice(loanId: Id)
    | LongOverdueNotice(loanId: Id)

  datatype Store = Store(
    users: map<Id, User>,
    books: map<Id, Book>,
    loans: map<Id, Loan>,
    reservations: map<Id, Reservation>,
    loanSeq: Id,          // next auto-increment id of the loan table
    reservationSeq: Id)   // next auto-increment id of the reservation table
  {
    /** What the database guarantees: foreign keys resolve, and auto-increment
        ids start at 1 and stay below the counter. Since no stored id is 0,
        the models' `not self.id` test is true exactly for a record not yet
        saved. */
    ghost predicate Valid()
    {
      && 1 <= loanSeq && 1 <= reservationSeq
      && (forall id :: id in loans ==>
            1 <= id < loanSeq && loans[id].bookId in books && loans[id].userId in users)
      && (forall id :: id in reservations ==>
            1 <= id < reservationSeq && reservations[id].bookId in books && reservations[id].userId in users)
    }
  }

  /** The unique constraint on `Book.code`: no two books share a code. */
  ghost predicate UniqueCodes(books: map<Id, Book>)
  {
    forall a, b :: a in books && b in books && a != b ==> books[a].code != books[b].code
  }

  /** The result of one service call: the store afterwards, what the caller
      gets back, and the notifications handed to the notification layer. */
  datatype Step<+T> = Step(store: Store, result: Result<T>, notices: seq<Notice>)

  /** A refused call: nothing written, nobody notified. */
  function Refuse<T>(s: Store, e: Error): (r: Step<T>)
    ensures r.store == s && r.result == Err(e) && r.notices == []
  {
    Step(s, Err(e), [])
  }

  /** `Loan.objects.filter(user_id=u, returned=False)` */
  function ActiveLoansOf(loans: map<Id, Loan>, userId: Id): (ids: set<Id>)
    ensures forall id :: id in ids <==> id in loans && loans[id].userId == userId && !loans[id].returned
  {
    set id | id in loans && loans[id].userId == userId && !loans[id].returned
  }

  /** `.count()` of the query above. */
  function CountActive(loans: map<Id, Loan>, userId: Id): nat
  {
    |ActiveLoansOf(loans, userId)|
  }

  /** `Loan.objects.filter(book=b, returned=False)` */
  function ActiveLoansOn(loans: map<Id, Loan>, bookId: Id): (ids: set<Id>)
    ensures forall id :: id in ids <==> id in loans && loans[id].bookId == bookId && !loans[id].returned
  {
    set id | id in loans && loans[id].bookId == bookId && !loans[id].returned
  }

  /** Assigning `book.status` and saving the book. */
  function WithStatus(s: Store, bookId: Id, status: string): (t: Store)
    requires bookId in s.books
    ensures t.books.Keys == s.books.Keys && t.books[bookId].status == status
    ensures forall b :: b in s.books && b != bookId ==> t.books[b] == s.books[b]
    ensures t.books[bookId] == s.books[bookId].(status := status)
    ensures t.users == s.users && t.loans == s.loans && t.reservations == s.reservations
    ensures t.loanSeq == s.loanSeq && t.reservationSeq == s.reservationSeq
    ensures s.Valid() ==> t.Valid()
    ensures UniqueCodes(s.books) ==> UniqueCodes(t.books)
  {
    s.(books := s.books[bookId := s.books[bookId].(status := status)])
  }

  /** The database itself, updated in place by the services and models. */
  class Database {
    var users: map<Id, User>
    var books: map<Id, Book>
    var loans: map<Id, Loan>
    var reservations: map<Id, Reservation>
    var loanSeq: Id
    var reservationSeq: Id
    /** Every notification handed to the notification layer, in order. */
    ghost var outbox: seq<Notice>

    /** The tables; the outbox is not part of them. */
    function State(): Store
      reads this`users, this`books, this`loans, this`reservations, this`loanSeq, this`reservationSeq
    {
      Store(users, books, loans, reservations, loanSeq, reservationSeq)
    }

    constructor (s: Store)
      ensures State() == s && outbox == []
    {
      users, books, loans, reservations := s.users, s.books, s.loans, s.reservations;
      loanSeq, reservationSeq := s.loanSeq, s.reservationSeq;
      outbox := [];
    }

    /** `book.status = status; book.save()` on the row itself. */
    method SetBookStatus(bookId: Id, status: string)
      requires bookId in books
      modifies this`books
      ensures State() == WithStatus(old(State()), bookId, status)
      ensures outbox == old(outbox)
    {
      books := books[bookId := books[bookId].(status := status)];
    }
  }
}

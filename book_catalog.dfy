/** `BookService` of `services/book/book_service.py`: lookup, field update,
    guarded deletion and the four-field search. `services/book_service.py`
    defines `get_book_by_id`, `update_book`, `delete_book` and `search_books`
    with the same bodies; both are modelled by this module. */
module BookCatalog {
  import opened Store

  /** `get_book_by_id`: the book, or an error when the id is unknown. */
  function GetBookById(s: Store, bookId: Id): (r: Result<Book>)
    ensures r.Ok? <==> bookId in s.books
    ensures r.Ok? ==> r.value == s.books[bookId]
    ensures r.Err? ==> r.error == BookNotFound
  {
    if bookId in s.books then Ok(s.books[bookId]) else Err(BookNotFound)
  }

  // ---------------------------------------------------------------------------
  // update_book

  /** A key of the `data` dict given to `update_book`: one of the five
      columns the service edits, or `OtherKey`, a key naming no attribute of
      a `Book` instance, which `setattr` adds and `save` ignores. Keys that
      name another attribute are not modelled: `id`, `pk`, `created_at`,
      `updated_at`, the reverse relations `loans` and `reservations`, and
      method names such as `save`. */
  datatype Field = Title | Author | Genre | Code | Status | OtherKey(name: string)

  /** `setattr(book, key, value)` */
  function Assign(b: Book, f: Field, v: string): Book
  {
    match f
    case Title => b.(title := v)
    case Author => b.(author := v)
    case Genre => b.(genre := v)
    case Code => b.(code := v)
    case Status => b.(status := v)
    case OtherKey(_) => b
  }

  /** The book with the columns named in `data` whose keys are in `keys`
      replaced by their values. */
  function Partial(b: Book, data: map<Field, string>, keys: set<Field>): Book
    requires keys <= data.Keys
  {
    Book(
      if Title in keys then data[Title] else b.title,
      if Author in keys then data[Author] else b.author,
      if Genre in keys then data[Genre] else b.genre,
      if Code in keys then data[Code] else b.code,
      if Status in keys then data[Status] else b.status)
  }

  /** The book with every column named in `data` replaced by its value. */
  function Overlay(b: Book, data: map<Field, string>): Book
  {
    Partial(b, data, data.Keys)
  }

  /** Assigning one more key on top of the keys done so far is the overlay of
      the larger set of keys. */
  lemma OverlayStep(b: Book, data: map<Field, string>, done: set<Field>, k: Field)
    requires k in data && done <= data.Keys
    ensures Assign(Partial(b, data, done), k, data[k]) == Partial(b, data, done + {k})
  {
  }

  /** Updating with the same data twice is updating once. */
  lemma {:induction false} OverlayIdempotent(b: Book, data: map<Field, string>)
    ensures Overlay(Overlay(b, data), data) == Overlay(b, data)
  {
  }

  /** Whether some other book already uses `code` (the unique constraint). */
  predicate CodeTaken(s: Store, bookId: Id, code: string)
  {
    exists other :: other in s.books && other != bookId && s.books[other].code == code
  }

  /** The effect of `update_book`: every key of `data` assigned, the row saved.
      A missing book or a clash with another book's code is reported wrapped
      in the method's own error, and nothing is written. */
  function EditBook(s: Store, bookId: Id, data: map<Field, string>): (r: Step<Book>)
    requires s.Valid()
    ensures r.store.Valid() && r.notices == []
    ensures UniqueCodes(s.books) ==> UniqueCodes(r.store.books)
    ensures bookId !in s.books ==> r.result == Err(UpdateFailed(BookNotFound))
    ensures bookId in s.books ==>
      (r.result.Ok? <==> !CodeTaken(s, bookId, Overlay(s.books[bookId], data).code))
    ensures r.result.Err? ==> r.store == s
    ensures r.result.Err? && bookId in s.books ==> r.result.error == UpdateFailed(DuplicateCode)
    ensures r.result.Ok? ==>
      && bookId in s.books
      && r.result.value == Overlay(s.books[bookId], data)
      && r.store == s.(books := s.books[bookId := r.result.value])
  {
    if bookId !in s.books then Refuse(s, UpdateFailed(BookNotFound))
    else
      var b := Overlay(s.books[bookId], data);
      if CodeTaken(s, bookId, b.code) then Refuse(s, UpdateFailed(DuplicateCode))
      else Step(s.(books := s.books[bookId := b]), Ok(b), [])
  }

  /** A field that `data` does not name keeps its value. */
  lemma UntouchedFieldsKept(s: Store, bookId: Id, data: map<Field, string>)
    requires s.Valid() && EditBook(s, bookId, data).result.Ok?
    ensures var b := EditBook(s, bookId, data).result.value;
      && (Title !in data ==> b.title == s.books[bookId].title)
      && (Author !in data ==> b.author == s.books[bookId].author)
      && (Genre !in data ==> b.genre == s.books[bookId].genre)
      && (Code !in data ==> b.code == s.books[bookId].code)
      && (Status !in data ==> b.status == s.books[bookId].status)
  {
  }

  /** The `setattr` loop of `update_book`: every key of `data` assigned, in
      whatever order the dict yields them. */
  method AssignAll(original: Book, data: map<Field, string>) returns (book: Book)
    ensures book == Overlay(original, data)
  {
    book := original;
    var todo := data.Keys;
    ghost var done: set<Field> := {};
    while todo != {}
      invariant todo + done == data.Keys && todo !! done
      invariant book == Partial(original, data, done)
      decreases |todo|
    {
      var key :| key in todo;
      OverlayStep(original, data, done, key);
      book := Assign(book, key, data[key]);
      todo := todo - {key};
      done := done + {key};
    }
  }

  /** `update_book`: a `setattr` per key of `data`, then `save`. */
  method UpdateBook(db: Database, bookId: Id, data: map<Field, string>) returns (r: Result<Book>)
    requires db.State().Valid()
    modifies db
    ensures Step(db.State(), r, []) == EditBook(old(db.State()), bookId, data)
    ensures db.outbox == old(db.outbox)
  {
    if bookId !in db.books {
      return Err(UpdateFailed(BookNotFound));
    }
    var book := AssignAll(db.books[bookId], data);
    if CodeTaken(db.State(), bookId, book.code) {
      return Err(UpdateFailed(DuplicateCode));
    }
    db.books := db.books[bookId := book];
    r := Ok(book);
  }

  // ---------------------------------------------------------------------------
  // delete_book

  /** The effect of `delete_book`: refused while an unreturned loan references
      the book; otherwise the book is deleted together with the loans and
      reservations that reference it (`on_delete=CASCADE`), and the answer is
      `True`. */
  function RemoveBook(s: Store, bookId: Id): (r: Step<bool>)
    requires s.Valid()
    ensures r.store.Valid() && r.notices == []
    ensures UniqueCodes(s.books) ==> UniqueCodes(r.store.books)
    ensures bookId !in s.books ==> r.result == Err(BookNotFound)
    ensures bookId in s.books && ActiveLoansOn(s.loans, bookId) != {} ==> r.result == Err(HasActiveLoans)
    ensures r.result.Err? ==> r.store == s
    ensures r.result.Ok? <==> bookId in s.books && ActiveLoansOn(s.loans, bookId) == {}
    ensures r.result.Ok? ==>
      && r.result.value
      && r.store.books == s.books - {bookId}
      && (forall id :: id in r.store.loans <==> id in s.loans && s.loans[id].bookId != bookId)
      && (forall id :: id in r.store.loans ==> r.store.loans[id] == s.loans[id])
      && (forall id :: id in r.store.reservations <==> id in s.reservations && s.reservations[id].bookId != bookId)
      && (forall id :: id in r.store.reservations ==> r.store.reservations[id] == s.reservations[id])
      && r.store.users == s.users
  {
    if bookId !in s.books then Refuse(s, BookNotFound)
    else if ActiveLoansOn(s.loans, bookId) != {} then Refuse(s, HasActiveLoans)
    else
      var loans := map id | id in s.loans && s.loans[id].bookId != bookId :: s.loans[id];
      var reservations := map id | id in s.reservations && s.reservations[id].bookId != bookId :: s.reservations[id];
      Step(s.(books := s.books - {bookId}, loans := loans, reservations := reservations), Ok(true), [])
  }

  /** `delete_book`, run on the database. */
  method DeleteBook(db: Database, bookId: Id) returns (r: Result<bool>)
    requires db.State().Valid()
    modifies db`books, db`loans, db`reservations
    ensures Step(db.State(), r, []) == RemoveBook(old(db.State()), bookId)
    ensures db.outbox == old(db.outbox)
  {
    if bookId !in db.books {
      return Err(BookNotFound);
    }
    if ActiveLoansOn(db.loans, bookId) != {} {
      return Err(HasActiveLoans);
    }
    var loans := map id | id in db.loans && db.loans[id].bookId != bookId :: db.loans[id];
    var reservations := map id | id in db.reservations && db.reservations[id].bookId != bookId :: db.reservations[id];
    db.books, db.loans, db.reservations := db.books - {bookId}, loans, reservations;
    r := Ok(true);
  }

  // ---------------------------------------------------------------------------
  // search_books

  /** Lower-casing of one character (ASCII letters only). */
  function LowerChar(c: char): char
  {
    if 'A' <= c <= 'Z' then (c as int + 32) as char else c
  }

  function Lower(s: string): (r: string)
    ensures |r| == |s| && forall i :: 0 <= i < |s| ==> r[i] == LowerChar(s[i])
  {
    seq(|s|, i requires 0 <= i < |s| => LowerChar(s[i]))
  }

  /** `needle` occurs in `hay` starting at index `i`. */
  predicate OccursAt(hay: string, needle: string, i: nat)
  {
    i + |needle| <= |hay| && hay[i..i + |needle|] == needle
  }

  /** `needle` occurs in `hay` as a contiguous substring. */
  predicate Contains(hay: string, needle: string)
  {
    exists i: nat :: i <= |hay| && OccursAt(hay, needle, i)
  }

  /** The `__icontains` lookup. */
  predicate IContains(field: string, query: string)
  {
    Contains(Lower(field), Lower(query))
  }

  predicate MatchesAny(b: Book, query: string)
  {
    IContains(b.title, query) || IContains(b.author, query) || IContains(b.genre, query) || IContains(b.code, query)
  }

  /** `search_books(query, search_type)`: one column for the four named
      search types, any of the four columns for every other value. */
  function SearchBooks(s: Store, query: string, searchType: string): (ids: set<Id>)
    ensures ids <= s.books.Keys
    ensures searchType == "title" ==> forall id :: id in ids <==> id in s.books && IContains(s.books[id].title, query)
    ensures searchType == "author" ==> forall id :: id in ids <==> id in s.books && IContains(s.books[id].author, query)
    ensures searchType == "genre" ==> forall id :: id in ids <==> id in s.books && IContains(s.books[id].genre, query)
    ensures searchType == "code" ==> forall id :: id in ids <==> id in s.books && IContains(s.books[id].code, query)
    ensures searchType !in {"title", "author", "genre", "code"} ==>
      forall id :: id in ids <==> id in s.books && MatchesAny(s.books[id], query)
  {
    if searchType == "title" then set id | id in s.books && IContains(s.books[id].title, query)
    else if searchType == "author" then set id | id in s.books && IContains(s.books[id].author, query)
    else if searchType == "genre" then set id | id in s.books && IContains(s.books[id].genre, query)
    else if searchType == "code" then set id | id in s.books && IContains(s.books[id].code, query)
    else set id | id in s.books && MatchesAny(s.books[id], query)
  }

  /** The catch-all search is the union (not the intersection) of the four
      single-column searches; any unknown search type behaves as `all`. */
  lemma SearchAllIsUnion(s: Store, query: string, searchType: string)
    requires searchType !in {"title", "author", "genre", "code"}
    ensures SearchBooks(s, query, searchType)
         == SearchBooks(s, query, "title") + SearchBooks(s, query, "author")
          + SearchBooks(s, query, "genre") + SearchBooks(s, query, "code")
  {
  }

  /** An empty query matches every book, whatever the search type. */
  lemma {:induction false} EmptyQueryMatchesEveryBook(s: Store, searchType: string)
    ensures SearchBooks(s, "", searchType) == s.books.Keys
  {
    forall b: Book ensures IContains(b.title, "") && IContains(b.author, "") && IContains(b.genre, "") && IContains(b.code, "") {
      assert OccursAt(Lower(b.title), Lower(""), 0);
      assert OccursAt(Lower(b.author), Lower(""), 0);
      assert OccursAt(Lower(b.genre), Lower(""), 0);
      assert OccursAt(Lower(b.code), Lower(""), 0);
    }
  }
}

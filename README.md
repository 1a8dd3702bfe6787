# Library circulation rules in Dafny

This project models the circulation rules of a Django library backend and proves properties about them. It covers the following:

- **Loan services.** There are two versions of the loan service: `services/loan/loan_service.py`, which the live views use, and the older `services/loan_service.py`. Both issue loans, process returns and charge late fines. The older one also runs a daily job that reminds and warns borrowers.
- **Model guards.** The `Loan` and `Reservation` model classes check records and update book statuses when they save them. The repository defines these classes twice, once in `models.py` and once in the `models/` package.
- **Book catalogue.** This covers book lookup, field update, guarded deletion, search and status changes. The older status change notifies the first reader waiting for the book.
- **Reservation queue.** Active reservations are ordered, and the reservation viewset's `cancel` and `active` actions are modelled.
- **Small extras:**
  - the loan validation service;
  - the observer list behind notifications;
  - two helpers of the report service;
  - the front end's route guard, `libreria-front/src/middleware.ts`.

The database is a value `Store.Store`. It holds four tables, each a map from ids to records, and the auto-increment counters. The class `Store.Database` holds the same tables as mutable fields. Its ghost `outbox` records every notification handed to the notification layer, in order.

Each service operation is modelled twice:

- as a function from a store to a `Step`. A `Step` holds the new store, the answer (`Ok` or `Err`) and the notifications sent.
- as a method on a `Database` that follows the source statement by statement. Its postcondition ties the new state to the function.

A call that fails writes nothing. Auto-increment ids start at 1, as the database's do. So a record's `id` is `None` exactly when the models' `not self.id` test is true. "Today" is an integer day number passed in as a parameter.

Two places differ from the source in form:

- **Which model classes are in force.** The backend imports `..models`, and whether that resolves to `models.py` or to the `models/` package depends on packaging. So every operation that saves through a model takes a `ModelDefs` parameter:
  - `ModuleModels` is `models.py`.
  - `PackageModels` is the `models/` package as written.
  - `PackageModelsCorrected` is the package with the fix described under Findings.
- **Repository files.** The repository's files are cited below relative to the repository root.

## Model

| member | source | states |
|---|---|---|
| Store.WithStatus | backend/library/apps/biblioteca/services/book_service.py:139-141 | Setting a book's status changes that one field of that one book and leaves every other table and record alone. The foreign keys stay valid and the book codes stay unique |
| Store.Database.SetBookStatus | backend/library/apps/biblioteca/services/loan/loan_service.py:32-33 | Assigning `book.status` and saving changes the database exactly as `WithStatus` does and sends no notification |
| LoanModel.LoanClean | backend/library/apps/biblioteca/models/Loan.py:17-31 | `clean` passes exactly when three things hold. First, a new loan's book is `available`. Second, the due date is not before today; this check also applies to existing loans unless the corrected definition is in force. Third, in the package's definition, a new loan's borrower holds fewer than five unreturned loans. It names the first check that fails |
| LoanModel.SaveLoanRecord | backend/library/apps/biblioteca/models/Loan.py:33-42 | Only the package's `save` runs `clean`, and a refused save writes nothing. A new loan gets the next id, which is at least 1, and the loan counter goes up by one. Its book becomes `borrowed` and keeps every other column. In the package's definition, an existing loan saved as returned without a returned date is stamped today. Its book becomes `available` and keeps every other column. Any other existing loan is overwritten, and the books are left alone. Users, reservations and the reservation counter never change |
| LoanModel.ModuleSaveSkipsClean | backend/library/apps/biblioteca/models.py:39-50 | In `models.py`, `save` never calls `clean`. Every save goes through, and saving an existing loan never touches a book |
| LoanModel.SaveLoan | backend/library/apps/biblioteca/models/Loan.py:33-42 | `Loan.save` on the database leaves exactly the state and answer of `SaveLoanRecord` |
| LoanModel.InsertLoan | backend/library/apps/biblioteca/models/Loan.py:35-42 | Saving a new loan first sets its book to `borrowed`, then writes the loan under the next id |
| LoanModel.UpdateLoan | backend/library/apps/biblioteca/models/Loan.py:38-42 | Saving an existing loan as returned without a returned date stamps it today and makes its book `available`. Any other save overwrites the row |
| ReservationModel.ReservationClean | backend/library/apps/biblioteca/models/Reservation.py:12-21 | `clean` passes exactly when the book is not `available` and the reservation is not a new active duplicate of the same user's active reservation of the book. The package reports availability first. `models.py` (lines 65-76) reports the duplicate first |
| ReservationModel.SaveReservationRecord | backend/library/apps/biblioteca/models/Reservation.py:23-25 | `save` runs `clean` first. A refused save writes nothing. Otherwise a new reservation is inserted under the next id, which is at least 1, and the reservation counter goes up by one. Or the existing one is overwritten and the counter stays |
| ReservationModel.CreateKeepsNoDuplicateActive | backend/library/apps/biblioteca/models.py:65-72 | Creating a reservation never gives a user two active reservations of the same book |
| ReservationModel.SaveReservation | backend/library/apps/biblioteca/models/Reservation.py:23-25 | `Reservation.save` on the database leaves exactly the state and answer of `SaveReservationRecord` |
| ReservationQueue.FirstExists | backend/library/apps/biblioteca/services/book_service.py:173-176 | Every non-empty set of reservations has a first one in serving order (date, then id) |
| ReservationQueue.PrependFirst | backend/library/apps/biblioteca/services/book_service.py:173-176 | The first reservation in serving order, followed by the rest in serving order, is all of them in serving order |
| ReservationQueue.Queue | backend/library/apps/biblioteca/services/book_service.py:173-176 | The ordered queue lists exactly the given reservations, each once, in serving order |
| ReservationQueue.GetActiveReservations | backend/library/apps/biblioteca/services/book_service.py:163-176 | It returns the book's active reservations, all of them and nothing else, each once, in ascending reservation date. `book_availability_service.py` lines 27-32 define the same query |
| ReservationQueue.HeadOfQueue | backend/library/apps/biblioteca/services/book_service.py:185-187 | `.first()` of the queue is `None` exactly when nobody waits. Otherwise it is an active reservation of the book with the earliest date |
| BookCatalog.GetBookById | backend/library/apps/biblioteca/services/book/book_service.py:41-46 | It returns the book when the id exists and `BookNotFound` otherwise. `services/book_service.py` lines 77-93 behave the same |
| BookCatalog.OverlayStep | backend/library/apps/biblioteca/services/book/book_service.py:24-25 | One more `setattr` extends the overlay of the keys done so far by that key |
| BookCatalog.AssignAll | backend/library/apps/biblioteca/services/book/book_service.py:24-25 | The `setattr` loop, in whatever order the dict yields its keys, leaves the book with every column named in `data` replaced by its value |
| BookCatalog.OverlayIdempotent | backend/library/apps/biblioteca/services/book/book_service.py:20-29 | Updating a book twice with the same data is updating it once |
| BookCatalog.EditBook | backend/library/apps/biblioteca/services/book/book_service.py:20-29 | A missing book fails with the wrapped `BookNotFound`. Otherwise the update succeeds exactly when no other book has the resulting code; a clash fails with the wrapped `DuplicateCode`. On success, exactly the keys in `data` are assigned, only that book changes, and the updated book is returned. Book codes that were unique stay unique. This holds for keys that are one of the five edited columns or name no attribute of a `Book` instance |
| BookCatalog.UntouchedFieldsKept | backend/library/apps/biblioteca/services/book/book_service.py:23-26 | A field that `data` does not name keeps its value |
| BookCatalog.UpdateBook | backend/library/apps/biblioteca/services/book/book_service.py:20-29 | The `setattr` loop and the save leave exactly the state and answer of `EditBook` |
| BookCatalog.RemoveBook | backend/library/apps/biblioteca/services/book/book_service.py:31-39 | A missing book fails. A book with an unreturned loan fails with `HasActiveLoans` and nothing is deleted. Otherwise the book and, by cascade, its loans and reservations are deleted, and the answer is `True`. Book codes that were unique stay unique |
| BookCatalog.DeleteBook | backend/library/apps/biblioteca/services/book_service.py:55-75 | `delete_book` on the database leaves exactly the state and answer of `RemoveBook` |
| BookCatalog.SearchBooks | backend/library/apps/biblioteca/services/book/book_service.py:48-64 | `title`, `author`, `genre` and `code` match a case-insensitive substring of that field only. Any other search type matches when any of the four fields contains the query. `services/book_service.py` lines 95-120 behave the same |
| BookCatalog.SearchAllIsUnion | backend/library/apps/biblioteca/services/book/book_service.py:58-64 | The catch-all search is the union of the four single-field searches |
| BookCatalog.EmptyQueryMatchesEveryBook | backend/library/apps/biblioteca/services/book_service.py:106-120 | An empty query finds every book, whatever the search type |
| LegacyBookService.NotifyBookAvailable | backend/library/apps/biblioteca/services/book_service.py:178-188 | At most one notice goes out, to the user of the earliest active reservation of the book. None goes out when nobody waits |
| LegacyBookService.SetBookStatus | backend/library/apps/biblioteca/services/book_service.py:122-148 | An unknown status is refused before the book is looked up, and a missing book is refused. Otherwise the book gets exactly that status and nothing else changes. The first waiting reader is notified exactly when the new status is `available` |
| LegacyBookService.StatusChangeKeepsQueue | backend/library/apps/biblioteca/services/book_service.py:139-146 | A status change leaves every book's reservation queue as it was. The notified reservation stays active |
| LegacyBookService.UpdateBookStatus | backend/library/apps/biblioteca/services/book_service.py:122-148 | `update_book_status` on the database leaves exactly the state, answer and notifications of `SetBookStatus` |
| LegacyBookService.CheckAvailability | backend/library/apps/biblioteca/services/book_service.py:150-161 | It fails for a missing book. Otherwise it is true exactly when the status is `available` |
| BookAvailability.UpdateBookStatus | backend/library/apps/biblioteca/services/book/book_availability_service.py:11-20 | As written it always fails. It fails with `InvalidStatus` exactly when the status is unknown, and otherwise on the missing lookup method |
| BookAvailability.CheckAvailability | backend/library/apps/biblioteca/services/book/book_availability_service.py:22-25 | As written it always fails on the missing lookup method |
| BookAvailability.UpdateBookStatusIntended | backend/library/apps/biblioteca/services/book/book_availability_service.py:11-20 | With the lookup in place: an unknown status is refused before the lookup, and a missing book is refused. Otherwise the book gets exactly that status. Nobody is notified |
| BookAvailability.IntendedMatchesLegacyButSilent | backend/library/apps/biblioteca/services/book/book_availability_service.py:11-20 | This variant writes and answers exactly what the older `update_book_status` does, but sends no notification |
| BookAvailability.AsWrittenNeverUpdates | backend/library/apps/biblioteca/services/book/book_availability_service.py:17 | Every status change that the intended version performs fails as written |
| BookAvailability.CheckAvailabilityIntended | backend/library/apps/biblioteca/services/book/book_availability_service.py:22-25 | With the lookup in place, it fails exactly for a missing book and is otherwise true exactly when the status is `available` |
| LoanService.CalculateFine | backend/library/apps/biblioteca/services/loan/loan_service.py:98-112 | The days late are max(0, today − due date). The fine is max(0, days late − 2) × 10. The older `_calculate_fine` (`services/loan_service.py` lines 178-193) is the same |
| LoanService.FineZeroIffWithinGrace | backend/library/apps/biblioteca/services/loan/loan_service.py:108-110 | The fine is zero exactly when the loan is at most two days late |
| LoanService.FineMonotone | backend/library/apps/biblioteca/services/loan/loan_service.py:98-112 | Returning later never costs less. Past the grace days, each extra day costs exactly the daily fine |
| LoanService.VerifyUser | backend/library/apps/biblioteca/services/loan/loan_service.py:66-74 | It fails with `UserNotFound` for an unknown user and `UserInactive` for an inactive one. Otherwise it returns the user |
| LoanService.VerifyBook | backend/library/apps/biblioteca/services/loan/loan_service.py:76-84 | It fails with `BookNotFound` for an unknown book and `BookNotAvailable` for one that is not `available`. Otherwise it returns the book |
| LoanService.VerifyLoanLimits | backend/library/apps/biblioteca/services/loan/loan_service.py:86-96 | It passes exactly when the user holds fewer than five unreturned loans |
| LoanService.GetLoan | backend/library/apps/biblioteca/services/loan/loan_service.py:114-130 | It returns the loan when the id exists and `LoanNotFound` otherwise |
| LoanService.IssueLoan | backend/library/apps/biblioteca/services/loan/loan_service.py:18-36 | The user, the book and the limit are checked in that order, and each failure writes nothing. On success the new loan gets the next id. It is issued today and due in 15 days. The book becomes `borrowed`, nothing else changes, and the error wrapping never fires |
| LoanService.CreateLoan | backend/library/apps/biblioteca/services/loan/loan_service.py:18-36 | `create_loan` on the database leaves exactly the state and answer of `IssueLoan` |
| LoanService.ReturnLoan | backend/library/apps/biblioteca/services/loan/loan_service.py:132-167 | A missing loan fails, and an already-returned loan fails with `AlreadyReturned`; neither writes anything. The return goes through unless the save's due-date check refuses it. On success the loan is marked returned today and the book becomes `damaged` exactly when damaged, `available` otherwise. The answer carries the fine and the days late of `CalculateFine` |
| LoanService.ProcessReturn | backend/library/apps/biblioteca/services/loan/loan_service.py:132-167 | `process_return` on the database leaves exactly the state and answer of `ReturnLoan` |
| LoanService.LateReturnRefused | backend/library/apps/biblioteca/models/Loan.py:21-22 | Under the package's definitions, returning a loan after its due date is refused with `DueDateInPast`, and nothing is written |
| LoanService.NoFineUnderPackageModels | backend/library/apps/biblioteca/services/loan/loan_service.py:155-161 | Under the package's definitions, every return that goes through carries a fine of zero |
| LoanService.LateReturnFinedWhenCorrected | backend/library/apps/biblioteca/services/loan/loan_service.py:155-161 | With the due-date check limited to new loans, a late return goes through. It reports the days late and charges max(0, days late − 2) × 10 |
| LegacyLoanService.GetActiveLoans | backend/library/apps/biblioteca/services/loan_service.py:104-117 | It returns exactly the unreturned loans. The result is restricted to the user only when the user id is truthy |
| LegacyLoanService.ZeroIdCountsEveryone | backend/library/apps/biblioteca/services/loan_service.py:115-116 | User id 0 is falsy, so its "active loans" are everybody's |
| LegacyLoanService.GetOverdueLoans | backend/library/apps/biblioteca/services/loan_service.py:119-129 | It returns exactly the unreturned loans due before today |
| LegacyLoanService.VerifyLoanLimits | backend/library/apps/biblioteca/services/loan_service.py:170-176 | It passes exactly when `get_active_loans(user_id)` holds fewer than five loans |
| LegacyLoanService.LimitChecksAgree | backend/library/apps/biblioteca/services/loan_service.py:170-176 | For every user id but 0, the older limit check is the newer one |
| LegacyLoanService.ZeroIdRefusedByOthersLoans | backend/library/apps/biblioteca/services/loan_service.py:172-173 | An example on one concrete table, not a general proof: user 0 is refused while holding no loan at all, because others hold five |
| LegacyLoanService.IssueLoan | backend/library/apps/biblioteca/services/loan_service.py:20-63 | The user, the book and the limit are checked in that order, and each failure writes nothing. On success the loan is written, the book becomes `borrowed` through the book service, and exactly one notice goes to the borrower |
| LegacyLoanService.IssueLoanAgrees | backend/library/apps/biblioteca/services/loan_service.py:20-63 | For every user id but 0, the older `create_loan` writes and answers exactly what the newer one does |
| LegacyLoanService.IssueLoanSteps | backend/library/apps/biblioteca/services/loan_service.py:46-60 | Once the checks pass, `create_loan` is the loan's save, then the book service's status change, then the borrower's notice, and none of them fails |
| LegacyLoanService.Lend | backend/library/apps/biblioteca/services/loan_service.py:46-60 | The `try` block of `create_loan` leaves exactly the state, answer and notifications of `IssueLoan` |
| LegacyLoanService.CreateLoan | backend/library/apps/biblioteca/services/loan_service.py:20-63 | `create_loan` on the database leaves exactly the state, answer and notifications of `IssueLoan` |
| LegacyLoanService.ReturnLoan | backend/library/apps/biblioteca/services/loan_service.py:65-102 | A failure writes nothing and notifies nobody. On success, the first waiting reader is notified exactly when the book comes back undamaged |
| LegacyLoanService.ReturnLoanAgrees | backend/library/apps/biblioteca/services/loan_service.py:65-102 | The older return writes and answers exactly what the newer one does |
| LegacyLoanService.ProcessReturn | backend/library/apps/biblioteca/services/loan_service.py:65-102 | `process_return` on the database leaves exactly the state, answer and notifications of `ReturnLoan` |
| LegacyLoanService.UpcomingDue | backend/library/apps/biblioteca/services/loan_service.py:136-139 | It selects exactly the unreturned loans due in three days |
| LegacyLoanService.OverdueNoticesMention | backend/library/apps/biblioteca/services/loan_service.py:144-151 | Walking overdue loans gives each one exactly one overdue notice. It gives a long-overdue notice exactly to those 30 or more days late, and no other kind of notice |
| LegacyLoanService.DueNoticesExact | backend/library/apps/biblioteca/services/loan_service.py:131-151 | The job reminds exactly the unreturned loans due in three days. It warns exactly the unreturned loans past due, and warns twice exactly those 30 or more days late |
| LegacyLoanService.CheckAndNotifyDueLoans | backend/library/apps/biblioteca/services/loan_service.py:131-151 | The job sends first the reminders, then the overdue blocks, each query walked once in some order. It changes no table |
| LegacyLoanService.SendReminders | backend/library/apps/biblioteca/services/loan_service.py:136-141 | The first loop sends one reminder per loan due in three days, each loan once |
| LegacyLoanService.SendOverdueNotices | backend/library/apps/biblioteca/services/loan_service.py:144-151 | The second loop sends one overdue block per overdue loan, each loan once |
| Circulation.LendKeepsConsistent | backend/library/apps/biblioteca/services/loan/loan_service.py:26-33 | Lending an available book under a fresh id, to a user below the limit, keeps the circulation invariant. The invariant says: a book is `borrowed` exactly when it has an unreturned loan (both directions), no book has two unreturned loans, and nobody holds more than five |
| Circulation.IssueLoanKeepsConsistent | backend/library/apps/biblioteca/services/loan/loan_service.py:18-36 | `create_loan` keeps the circulation invariant (`borrowed` if and only if lent, one loan per book, at most five per user) under every model definition |
| Circulation.LegacyIssueLoanKeepsConsistent | backend/library/apps/biblioteca/services/loan_service.py:20-63 | So does the older `create_loan` |
| Circulation.FreeKeepsConsistent | backend/library/apps/biblioteca/services/loan/loan_service.py:159-165 | Marking an unreturned loan returned and giving its book any status other than `borrowed` keeps the circulation invariant in both directions |
| Circulation.ReturnLoanKeepsConsistent | backend/library/apps/biblioteca/services/loan/loan_service.py:132-167 | `process_return` keeps the circulation invariant: the freed book had no other loan out, and its new status is no longer `borrowed` |
| Circulation.LegacyReturnLoanKeepsConsistent | backend/library/apps/biblioteca/services/loan_service.py:65-102 | So does the older `process_return` |
| Circulation.LentBookRefused | backend/library/apps/biblioteca/services/loan/loan_service.py:76-84 | In a consistent library, a book on loan is refused to any active user as `BookNotAvailable` |
| Circulation.StatusOverrideBreaksConsistency | backend/library/apps/biblioteca/services/book_service.py:122-148 | Setting a lent book to `available` through the status endpoint breaks the invariant |
| LoanValidation.ValidateLoanLimits | backend/library/apps/biblioteca/services/loan/loan_validation_service.py:12-18 | It answers yes exactly when the loan service's `verify_loan_limits` lets the user borrow, which is when they hold fewer than five unreturned loans |
| LoanValidation.ValidateDueDate | backend/library/apps/biblioteca/services/loan/loan_validation_service.py:20-24 | It fails exactly for a due date before today. A due date of today passes, with `True` |
| LoanValidation.DueDateAgreesWithModel | backend/library/apps/biblioteca/services/loan/loan_validation_service.py:20-24 | For a new loan that passes `clean`'s other checks, it refuses exactly what `Loan.clean` refuses |
| LoanValidation.CanExtendLoan | backend/library/apps/biblioteca/services/loan/loan_validation_service.py:26-36 | It fails exactly for a missing loan. Otherwise it is true exactly for an unreturned loan due today or later |
| LoanValidation.ExtendableLoanOwesNothing | backend/library/apps/biblioteca/services/loan/loan_validation_service.py:26-36 | A loan that can be extended would be returned today with no fine and no days late |
| LoanValidation.NewLoanExtendable | backend/library/apps/biblioteca/services/loan/loan_validation_service.py:26-36 | A freshly issued loan can be extended on every day of its 15-day period |
| ReservationViews.ActiveReservations | backend/library/apps/biblioteca/views/reservation_views.py:36-40 | It lists exactly the reservations whose `active` is true |
| ReservationViews.CancelReservation | backend/library/apps/biblioteca/views/reservation_views.py:23-34 | An unknown reservation fails with `ReservationNotFound` and an inactive one with `AlreadyCancelled`. A reservation whose book is `available` fails in the save, and every failure writes nothing. Otherwise exactly `active` is set to false |
| ReservationViews.SecondCancelRefused | backend/library/apps/biblioteca/views/reservation_views.py:26-33 | After a successful cancellation, a second one fails with `AlreadyCancelled` |
| ReservationViews.CancelLeavesActiveListing | backend/library/apps/biblioteca/views/reservation_views.py:32-38 | A successful cancellation removes exactly that reservation from the `active` listing |
| ReservationViews.CancelKeepsNoDuplicateActive | backend/library/apps/biblioteca/views/reservation_views.py:32-33 | Cancelling never gives a user two active reservations of the same book |
| ReservationViews.Cancel | backend/library/apps/biblioteca/views/reservation_views.py:23-34 | `cancel` on the database leaves exactly the state and answer of `CancelReservation` |
| ReservationViews.CancelRefusedOnceAvailable | backend/library/apps/biblioteca/views/reservation_views.py:33 | As written, an active reservation of an `available` book cannot be cancelled under any model definition, and it stays active |
| ReservationViews.CancelReservationIntended | backend/library/apps/biblioteca/views/reservation_views.py:23-34 | As intended: an unknown reservation fails and an inactive one fails. An active one is always cancelled, and nothing else changes |
| ReservationViews.IntendedCancelAgrees | backend/library/apps/biblioteca/views/reservation_views.py:23-34 | The intended cancellation agrees with the one as written wherever that one succeeds, and it always withdraws an active reservation |
| Observers.RemoveFirst | backend/library/apps/biblioteca/observers.py:80-84 | `list.remove` takes out one occurrence of the observer and leaves the list as it was when the observer is absent |
| Observers.Attached | backend/library/apps/biblioteca/observers.py:69-71 | After `attach` the observer is in the list. A list without repetitions stays so, and the observer is added only if it was absent |
| Observers.AttachIdempotent | backend/library/apps/biblioteca/observers.py:69-71 | Attaching the same observer twice is attaching it once |
| Observers.DetachUndoesAttach | backend/library/apps/biblioteca/observers.py:62-84 | Detaching an observer that was just attached, and was not there before, restores the list exactly, order included |
| Observers.RemoveFirstFromDistinct | backend/library/apps/biblioteca/observers.py:73-84 | In a list without repetitions, `detach` removes the observer entirely and keeps the list free of repetitions and all other observers |
| Observers.NotificationSubject.constructor | backend/library/apps/biblioteca/observers.py:59-60 | A new subject has no observers |
| Observers.NotificationSubject.Attach | backend/library/apps/biblioteca/observers.py:62-71 | `attach` appends the observer exactly when it is absent, and the list stays free of repetitions |
| Observers.NotificationSubject.Detach | backend/library/apps/biblioteca/observers.py:73-84 | `detach` removes the observer, which is then absent. An absent observer leaves the list unchanged |
| Observers.NotificationSubject.Notify | backend/library/apps/biblioteca/observers.py:86-106 | `notify` gives one result per observer, in list order, each the outcome of that observer's delivery. The list is not changed |
| Reports.BucketOf | backend/library/apps/biblioteca/services/report_service.py:134-143 | The ranges are: up to 7 days (zero and negative included), 8-15, 16-30, and over 30 |
| Reports.CountsAddUp | backend/library/apps/biblioteca/services/report_service.py:125-145 | Every loan lands in exactly one range, so the four counts add up to the number of loans |
| Reports.CountsIgnoreOrder | backend/library/apps/biblioteca/services/report_service.py:134-143 | The counts depend only on which due dates occur and how often, not on the order the query yields the loans |
| Reports.GroupByDaysOverdue | backend/library/apps/biblioteca/services/report_service.py:125-145 | The dict always has the four ranges, each counting the loans whose days overdue fall in it |
| Reports.ThirtyDaysLate | backend/library/apps/biblioteca/services/report_service.py:140-141 | A loan exactly 30 days late is warned as long overdue by the daily job, but reported in the 16-30 range |
| Reports.MostActiveIndex | backend/library/apps/biblioteca/services/report_service.py:164 | `max` with a key picks the first row with the largest total |
| Reports.MostActiveMonth | backend/library/apps/biblioteca/services/report_service.py:159-164 | No month is returned for an empty breakdown. Otherwise the result is a row with the largest total, the first such row |
| RouteGuard.Middleware | libreria-front/src/middleware.ts:5-24 | A path starting with `/dashboard` redirects to `/login` exactly when there is no token. `/login` redirects to `/dashboard` exactly when there is one. Everything else passes |
| RouteGuard.Route | libreria-front/src/middleware.ts:26-31 | Only `/dashboard`, paths below it and `/login` reach the middleware, and everything else passes |
| RouteGuard.NoRedirectLoop | libreria-front/src/middleware.ts:5-31 | Following a redirect always lands on a page that lets the same request through |
| RouteGuard.DashboardGuarded | libreria-front/src/middleware.ts:10-14 | The dashboard and every page below it are closed without a token and open with one |
| RouteGuard.PrefixSiblingNotGuarded | libreria-front/src/middleware.ts:10 | The raw prefix test would guard `/dashboardx`, but the matcher never sends that path to the middleware |

## Left out

- Sending notifications is not modelled: e-mails, `Notification` rows and message templates. A notice in the ghost outbox records only who was told what. In `Observers`, an observer's delivery is a function parameter that returns whether it succeeded.
- `timezone.now()` is not modelled. "Today" is an integer day number, and a returned date is that day, not a timestamp.
- The ORM is modelled as maps. Querysets become sets of ids. Their default orderings (`-loan_date`, `-reservation_date`) are not modelled. `icontains` lower-cases ASCII letters only.
- Equal reservation dates are ordered by id. The database's order for such ties is unspecified.
- LegacyLoanService.CheckAndNotifyDueLoans: the order in which each query is walked is left unspecified, where the source walks it by descending loan date.
- The older `create_loan` wraps every error inside its `try` in a new message. This wrapping is not modelled, because nothing inside that block can fail once the checks have passed. The model proves this by leaving the failure case out.
- HTTP status codes, serializers and permissions are not modelled. A 404 from `get_object` is the error `ReservationNotFound`.
- Concurrency is not modelled. Each service call is one sequential step.
- `process_return` is defined twice in `services/loan/loan_service.py`. Only the later definition (lines 132-167) is in force, and the two bodies are the same.
- Report aggregations other than the two helpers are not modelled; they are database queries.
- BookCatalog.EditBook: only keys that are one of the five edited columns or name no attribute of a `Book` instance are modelled. Other keys are not: `id` and `pk` make `save` write another row or insert a new one; `created_at` and `updated_at` (models/Book.py lines 19-20) are not part of the modelled record; setting the reverse relations `loans` or `reservations` (models/Loan.py line 10, models/Reservation.py line 7) raises `TypeError`, and so does calling `save` after `data` has replaced it, both wrapped as the update error with nothing written.
- Python object identity for observers is not modelled. Observers are compared with `==`, which for these classes is identity.

## Findings

| source | as written | input that shows it | evidently intended | confidence | as-written member | corrected member |
|---|---|---|---|---|---|---|
| backend/library/apps/biblioteca/services/book/book_availability_service.py:17 | `update_book_status` and `check_availability` call `self.get_book_by_id`, which the class does not define | any valid status, e.g. `update_book_status(1, "lost")` | look the book up, then assign the status or compare it | high, not executed | BookAvailability.AsWrittenNeverUpdates | BookAvailability.UpdateBookStatusIntended |
| backend/library/apps/biblioteca/models/Loan.py:21-22 | the due-date check runs on every save. `process_return` saves the loan, so a return after the due date is refused, and no fine is ever charged | a loan due on day 10, returned on day 15 | check the due date only for new loans, as the other two checks of `clean` do; the return then charges 30 | high, not executed | LoanService.LateReturnRefused | LoanService.LateReturnFinedWhenCorrected |
| backend/library/apps/biblioteca/views/reservation_views.py:33 | `cancel` saves through `Reservation.save`, whose `clean` refuses any reservation of an `available` book, so a waiting reader cannot withdraw once the book is back | an active reservation of a book whose status is `available` | a cancellation always withdraws an active reservation | medium, not executed | ReservationViews.CancelRefusedOnceAvailable | ReservationViews.CancelReservationIntended |

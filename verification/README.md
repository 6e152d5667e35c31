# Book rental coordination, modelled in Dafny

This project models the rental logic of the BookRentalService web API. Three
keyed stores make up its state, next to the set of user keys that the
foreign keys refer to:

- books, keyed by `BookId`, each carrying an `IsRented` flag;
- rentals, keyed by `RentalId`, with `RentedOn`, `DueDate`, an optional
  `ReturnedOn`, the stored `IsOverdue` flag and `ExtensionCount`;
- the waiting list, a sequence of `(WaitingListId, BookId, UserId, RequestedOn)`
  entries in store order.

`BookService` renting, returning, extending, queueing and promotion are pure
transition functions over an immutable `Store`. Each returns a `Step`: the new
store, the reply or exception, and the availability notifications it sent.
The overdue query of `RentalRepository` and the title/genre search of
`BookRepository` are modelled as filters over the stores.

Representation choices:

- Dates are `DateTime` tick counts (`Instant`, 0 up to `DateTime.MaxValue.Ticks`).
  `DateTime.UtcNow` becomes a `now` parameter.
- `AddDays` fails outside the DateTime range, just as .NET throws
  `ArgumentOutOfRangeException`.
- Identity columns are the counters `nextRentalId` and `nextWaitingId`. In a
  valid store every key lies below its counter, so `AddAsync` always picks a
  fresh id.
- An exception is a `Failure`. Updates that were saved before the exception
  stay saved.
- Whether a waiting entry's `User` and `Book` navigation properties are loaded
  depends on the ORM. It is the parameter `navs`, a map from `WaitingListId` to
  the loaded pair.
- `ReturnBookAsync` itself reads only the rental (line 80) and the book (line
  91), never a user. Promotion therefore fires only if the repository's
  `GetAllAsync` loads the entries' `User` and `Book` navigations, and that
  repository is not part of this model. If it does not load them,
  `nextInLine.User` is null at line 176 and no return ever promotes anyone:
  that is the case `navs == map[]`, covered by
  `Properties.ReturnWithUnloadedNavigation`.
- When loaded, the navigations are the rows the entry's keys point at
  (`NavsAgree`, after AppDbContext.cs:50-58). The promotion lemmas assume this.
- An availability notice (`AvailabilityNotice`, the call to the e-mail
  service, not the stored `Notification` entity) records the navigated user's id, the recipient the code uses
  (that user's `Name`), and the book's `Title`.
- A row the database's foreign keys reject (AppDbContext.cs:35-58) fails with
  `ForeignKeyViolation`, and nothing is inserted.

Modules: `Common` (option/result, DateTime arithmetic), `Models` (entities and
store), `WaitingQueue` (earliest-entry selection and removal), `BookService`
(the operations), `RentalRepository`, `BookRepository`, `Ledger` (the
invariant and its preservation over any call sequence), `Properties`
(cross-call properties and the hand-over scenario).

Behaviour of the code that the model keeps as written:

- `ExtendDueDate` accepts zero or negative `days` and extends returned rentals too.
- `RentBook` reports the "queued" outcome as a success value. It fails with
  BookNotFound for an unknown book. It also fails when the due date is
  unrepresentable, or when the database rejects the insert of the rental or
  waiting entry because the user does not exist. The due-date failure and
  the rejected rental insert happen after the book was already saved as
  rented. The rejected waiting entry changes nothing. A book left marked
  this way can never be rented again; "## Findings" records this and the
  corrected rent.
- A failure's message is the exception's `Message`, which the controller
  returns. For the DateTime range check this ends in " (Parameter 'value')".
- `AddToWaitingList` does not look the book up itself. The database's foreign
  keys reject an entry for an unknown book or user.
- A rental's `IsOverdue` column is never set by the service. The overdue query
  reports a rental whose stored flag is set even after it was returned.
- Promotion looks only at the earliest entry for the book. It does nothing when
  that entry's navigations are not loaded. The message is addressed to the
  user's `Name`.

## Model

| member | source | states |
|---|---|---|
| BookService.RentBook | BookRentalService/Services/BookService.cs:39-74 | An unknown book fails with BookNotFound and nothing changes. For a rented book the user is queued: exactly one entry (user, book, now) is appended, and books, rentals and the rental counter are unchanged. If the user is unknown that insert is rejected and nothing changes. An available book, and no other, is marked rented, with every other field kept. Then a rental (user, book, now, due now+14 days, open, not overdue, 0 extensions) is added under the next id, and the user's earliest request for the book is deleted. If the due date is unrepresentable, or the user is unknown, the call fails after the book was marked: rentals, waiting list and counters are unchanged. |
| BookService.ReturnBook | BookRentalService/Services/BookService.cs:76-98 | A missing or already-returned rental fails with InvalidRentalRecord and changes nothing. Otherwise the rental gets ReturnedOn = now. If its book is missing, the call throws after that save and nothing else changes. Otherwise the book becomes available with its other fields kept, and no other book changes. The result is exactly promotion (NotifyNextInLine) run on that closed-and-freed store. |
| BookService.ExtendDueDate | BookRentalService/Services/BookService.cs:100-121 | A missing rental fails with RentalNotFound. ExtensionCount >= 2 fails with ExtensionLimitReached. An unrepresentable new date fails. None of these change anything. Otherwise only that rental changes: its due date moves by `days` days and its count goes up by one. |
| BookService.DeleteWaitingList | BookRentalService/Services/BookService.cs:123-141 | With no entry for (user, book) the store is unchanged. Otherwise exactly the earliest such entry by RequestedOn (first in store order on ties) is removed. Books and rentals do not change. |
| BookService.AddToWaitingList | BookRentalService/Services/BookService.cs:143-156 | With a known user and book, appends one entry (new id, book, user, now) after the existing list, which is kept as is. Books and rentals are unchanged. An entry for an unknown user or book is rejected by the foreign keys and nothing changes. |
| BookService.NotifyNextInLine | BookRentalService/Services/BookService.cs:158-182 | With no entry for the book nothing happens. Otherwise only the earliest entry for the book is considered. If its navigations are loaded, it is removed and one notification is sent, to the navigated user's Name, with the navigated book's Title. If not, nothing happens. When the navigations agree with the keys, every title sent is the stored book's. Books and rentals are never touched. |
| BookService.GetUserRentalHistory | BookRentalService/Services/BookService.cs:184-193 | Exactly the stored rentals whose UserId is the argument, open or returned, with their stored values. |
| WaitingQueue.EarliestIndex | BookRentalService/Services/BookService.cs:128-130 | Finds the position of an entry that matches, has the least RequestedOn, and is strictly earlier than every match before it in store order. Finds none exactly when nothing matches. |
| WaitingQueue.EarliestIndexComplete | BookRentalService/Services/BookService.cs:172-174 | The earliest matching entry is always the one selected, both for the book's queue here and for the user's own request at lines 128-130. |
| WaitingQueue.RemoveAt | BookRentalService/Services/BookService.cs:134 | Deleting one entry keeps all others in their order, and the multiset loses exactly that entry. |
| WaitingQueue.DeleteById | BookRentalService/Services/BookService.cs:134 | `DeleteAsync(id)`: the result holds no entry with that id and is no longer than the list. |
| WaitingQueue.DeleteByIdKeepsOthers | BookRentalService/Services/BookService.cs:134 | An entry is in the result exactly when it is in the list and its id differs. |
| WaitingQueue.DeleteByAbsentId | BookRentalService/Services/BookService.cs:134 | Deleting an id that no entry carries leaves the list unchanged. |
| WaitingQueue.DeleteByIdIsRemoveAt | BookRentalService/Services/BookService.cs:179 | When ids are unique, deleting the id of the entry at a position removes exactly that position and keeps the others in order. |
| Common.AddDays | BookRentalService/Services/BookService.cs:117 | DateTime.AddDays for whole days, as called at lines 66 and 117. It yields a value exactly when the result stays within [0, DateTime.MaxValue.Ticks], moved by days × 864,000,000,000 ticks. Otherwise it is the ArgumentOutOfRangeException. |
| RentalRepository.GetOverdueRentals | BookRentalService/Repository/RentalRepository.cs:11-17 | Exactly the stored rentals that are flagged IsOverdue, or that are past due (strictly) and not returned. |
| RentalRepository.PastDueOpenIsOverdue | BookRentalService/Repository/RentalRepository.cs:15 | A rental with DueDate < now and no ReturnedOn is reported. |
| RentalRepository.FlaggedIsOverdue | BookRentalService/Repository/RentalRepository.cs:15 | A flagged rental is reported even after it was returned. |
| RentalRepository.DueNowIsNotOverdue | BookRentalService/Repository/RentalRepository.cs:15 | The comparison is strict: an unflagged rental due exactly now is not reported. |
| RentalRepository.ReturnedUnflaggedNotOverdue | BookRentalService/Repository/RentalRepository.cs:15 | An unflagged returned rental is never reported. |
| BookRepository.SearchBooks | BookRentalService/Repository/BookRepository.cs:11-18 | Exactly the books passing both criteria. With a non-empty title each result's Title contains it. With a non-empty genre each result's Genre equals it. |
| BookRepository.FullTitleIsFound | BookRentalService/Repository/BookRepository.cs:14-15 | Searching by a book's full non-empty title finds it, when the genre is not given or is the book's own genre. |
| BookRepository.EmptyCriteriaReturnAll | BookRentalService/Repository/BookRepository.cs:14-15 | Null or empty title and genre return the whole catalogue. |
| BookRepository.SearchIgnoresRentedFlag | BookRentalService/Repository/BookRepository.cs:13-16 | Changing a book's IsRented flag never changes whether it is found. |
| Ledger.OpenRentalCount | BookRentalService/Services/BookService.cs:57-69 | In a valid store a book is rented iff exactly one rental of it is open, and otherwise none is. |
| Ledger.KeyedDeleteIsRemoveAt | BookRentalService/Services/BookService.cs:179 | In a valid store no other entry shares an entry's WaitingListId, and deleting by that id (DeleteById) gives exactly the list with that position removed. This is why the operations model the delete at lines 134 and 179 as RemoveAt. |
| Ledger.WithNewRentalKeepsValid | BookRentalService/Services/BookService.cs:57-67 | Marking an available book rented and adding its open rental under the next id preserves the invariant. |
| Ledger.RentBookKeepsValid | BookRentalService/Services/BookService.cs:50-73 | RentBook preserves the invariant except in two failures: an unrepresentable due date, and a rental insert rejected for an unknown user. Both leave the book marked rented with no open rental, so they break the invariant. A rejected waiting-list insert keeps it. |
| BookService.RentBookChecked | BookRentalService/Services/BookService.cs:39-74 | The corrected rent, with the due date and the user checked before the book is saved. It gives the same reply or error as RentBook, the same store on success, and the unchanged store on every failure. |
| Ledger.RentBookCheckedKeepsValid | BookRentalService/Services/BookService.cs:57-69 | The corrected rent preserves the invariant on every outcome, for any user and clock value. |
| Ledger.MarkedWithoutRentalIsInvalid | BookRentalService/Services/BookService.cs:57-58 | Saving an available book as rented without recording its rental breaks the invariant. |
| Ledger.ReturnBookKeepsValid | BookRentalService/Services/BookService.cs:81-97 | ReturnBook preserves the invariant, and in a valid store it never dereferences a missing book. |
| Ledger.ExtendDueDateKeepsValid | BookRentalService/Services/BookService.cs:104-119 | ExtendDueDate preserves the invariant, including 0 <= ExtensionCount <= 2. |
| Ledger.AddToWaitingListKeepsValid | BookRentalService/Services/BookService.cs:147-154 | Queueing preserves the invariant and keeps waiting ids below the counter. |
| Ledger.DeleteWaitingListKeepsValid | BookRentalService/Services/BookService.cs:127-140 | Deleting a request preserves the invariant. |
| Ledger.NotifyNextInLineKeepsValid | BookRentalService/Services/BookService.cs:162-181 | Promotion preserves the invariant. |
| Ledger.RemoveEntryKeepsValid | BookRentalService/Services/BookService.cs:134 | Deleting one waiting entry, with nothing else changed, preserves the invariant, including unique waiting ids. |
| Ledger.RunKeepsValid | BookRentalService/Services/BookService.cs:39-182 | Any sequence of rent, return, extend, enqueue, delete and promote calls preserves the invariant, provided every as-written rent is by a known user with a representable due date. Corrected rents need no such condition. |
| Ledger.RunRentedIffOneOpen | BookRentalService/Services/BookService.cs:39-121 | After any such sequence a book is rented iff exactly one rental of it is open, and an available book has none open. |
| Properties.FailuresChangeNothing | BookRentalService/Services/BookService.cs:43-48 | Every failure except the three thrown after a save leaves the store unchanged and sends nothing. Those three are NullReference in ReturnBook, and DateOutOfRange or a rejected rental insert in RentBook on an available book. |
| Properties.FailureMessages | BookRentalService/Services/BookService.cs:47 | Failures carry the texts "Book not found.", "Invalid rental record.", "Rental not found." and "Maximum extension limit reached.". |
| Properties.DateFailureMessages | BookRentalService/Services/BookService.cs:117 | An unrepresentable date in a rent yields "The added or subtracted value results in an un-representable DateTime. (Parameter 'value')". An extension by 3,652,059 days or more either way yields "Value to add was out of range. (Parameter 'value')". |
| Properties.RentReplies | BookRentalService/Services/BookService.cs:54 | The queued reply is "Book is currently unavailable and has been added to the waiting list.". The rented reply is "Book rented successfully.". |
| Properties.RentAddsOneRental | BookRentalService/Services/BookService.cs:61-67 | In a valid store a successful rent adds exactly one rental under a fresh id and leaves every stored rental as it was. The new rental is open, due in 14 days and has no extensions. |
| Properties.RentClearsOwnRequest | BookRentalService/Services/BookService.cs:70 | A successful rent removes exactly the user's earliest request for that book. |
| Properties.SecondReturnRejected | BookRentalService/Services/BookService.cs:81-85 | Returning the same rental again fails with InvalidRentalRecord and changes nothing. |
| Properties.ThirdExtensionRejected | BookRentalService/Services/BookService.cs:111-118 | From zero, two successful extensions reach the cap and move the due date by d1 + d2 days. A third extension is refused. |
| Properties.PromotionIsNoReservation | BookRentalService/Services/BookService.cs:172-180 | A return creates no rental and leaves the book available. |
| Properties.ReturnPromotesEarliest | BookRentalService/Services/BookService.cs:168-180 | A return removes the earliest request for the book, when its navigations are loaded and agree with the keys. It sends one notification, naming that entry's user (addressed to their Name) and carrying the returned book's title. |
| Properties.ReturnWithUnloadedNavigation | BookRentalService/Services/BookService.cs:176 | When the earliest request's navigations are not loaded, a return leaves the waiting list unchanged and sends nothing. |
| Properties.ReturnWithoutWaiters | BookRentalService/Services/BookService.cs:164-168 | With no request for the book, a return leaves the waiting list unchanged and sends nothing. |
| Properties.RentedThenReturnedLeavesOverdue | BookRentalService/Repository/RentalRepository.cs:15 | A fresh rental is overdue exactly when its due date has passed. Once returned it is never reported. |
| Properties.HandOver | BookRentalService/Services/BookService.cs:39-98 | Take known users A and B and an available book nobody waits for. A rents it (due in 14 days) and B is queued. When B's request has its User and Book navigations loaded and they agree with its keys, A's return frees the book and sends one notification to B with the book's title, emptying the book's queue. B's next rent succeeds. |
| Properties.HistoryRecordsRent | BookRentalService/Services/BookService.cs:188-189 | In a valid store, after a successful rent, the renter's history is the old history plus the new rental under the new id. Every other user's history is unchanged as a map, keys and rentals alike. |
| Properties.EnqueueIdIsFresh | BookRentalService/Services/BookService.cs:153 | In a valid store a queued request gets an id no stored request has. |
| Properties.ApplyKeepsStranded | BookRentalService/Services/BookService.cs:50-97 | A book marked rented with no open rental stays so after any call: a rent of it only queues, and a return frees only the book of the rental it closes. |
| Properties.RunKeepsStranded | BookRentalService/Services/BookService.cs:39-182 | The same holds after any sequence of calls. |
| Properties.UnknownRenterStrandsBook | BookRentalService/Services/BookService.cs:57-69 | In a valid store, renting an available book for a user id with no user row fails after the book was saved as rented. The book then has no open rental and stays rented under any later sequence of calls. The corrected rent leaves the store unchanged. |

## Left out

- HTTP routing and the controller's mapping of exceptions to status codes: transport only.
- `SearchBooksAsync` and `GetOverdueRentalsAsync` in BookService only forward to the repositories and log. The repository filters are modelled.
- The overdue e-mail sweep (the hourly background job and `SendOverdueNotificationsAsync`): scheduling and message construction. The sends in the e-mail service are commented out, so a notification is only a recorded event.
- Logging, dependency injection and EF Core mapping. The stores are maps and a sequence.
- The generic `Repository<T>` is not part of this model. `UpdateAsync` and `AddAsync` are taken to save immediately, and an insert the foreign keys reject saves nothing. `DeleteAsync(id)` is taken to remove the entries with that key (`DeleteById`; the key is unique, AppDbContext.cs:32-33).
- The user table's contents: only its keys are modelled. Navigation rows are a parameter, and the promotion lemmas assume they are the rows the keys point at.
- Concurrency between awaits, such as the check-then-set race in RentBook: each call is applied atomically.
- SQL collation: `Contains` and `Equals` are exact, case-sensitive comparisons of character sequences.
- The unused `Notification` entity, and the `User`/`Book` navigations of `Rental`.
- BookService.RentBook: `DateTime.UtcNow` is read twice in the source, for RentedOn and DueDate. The model uses one instant, so the due date is exactly 14 days after RentedOn rather than a few ticks more.
- BookService.GetUserRentalHistory: returns a keyed map, so the order of the stored rentals is not modelled.
- RentalRepository.GetOverdueRentals: returns a keyed map, so result order is not modelled.
- BookRepository.SearchBooks: returns a keyed map, so result order is not modelled.
- Identity values and `ExtensionCount` are unbounded integers. A 32-bit identity overflow is not modelled, and the cap keeps the count far below it.

## Findings

| source | as written | input that shows it | evidently intended | confidence | as-written member | corrected member |
|---|---|---|---|---|---|---|
| BookRentalService/Services/BookService.cs:57-69 | The book is saved as rented (lines 57-58) before the due date is computed and the rental is inserted (lines 66-69). The rental insert is rejected when the user id has no user row. | An available book and a user id with no user row. The rent fails, the book stays marked rented with no open rental, no return can free it, and every later rent of it only queues. | A failed rent leaves the book available: check the user and the due date before marking the book. | medium, not executed | Properties.UnknownRenterStrandsBook | BookService.RentBookChecked, proved invariant-preserving by Ledger.RentBookCheckedKeepsValid |

`BookService.RentBook` stays the model of the code as written, and its
invariant proof carries the exception. The call sequences of `Ledger.Run` can
issue either rent, and `Ledger.RunKeepsValid` needs no condition on corrected
rents.

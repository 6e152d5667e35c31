/** The rental coordination logic of BookService: renting, returning,
    extending, the waiting list and promotion of the next waiting user. */
module BookService {
  import opened Common
  import opened Models
  import opened WaitingQueue

  /** The most extensions a rental may receive. */
  const MaxExtensions: int := 2

  /** The default loan period, in days. */
  const LoanDays: int := 14

  /** A successful call: the two outcomes of RentBook, and completion of a `Task` returning nothing. */
  datatype Reply = Rented | Queued | Done

  /** The exceptions the operations throw. */
  datatype Error =
    | BookNotFound
    | InvalidRentalRecord
    | RentalNotFound
    | ExtensionLimitReached
    | NullReference        // dereferencing the missing book in ReturnBook
    | DateOutOfRange(days: int)  // DateTime.AddDays(days) leaving the representable range
    | ForeignKeyViolation  // saving a row whose UserId or BookId has no target row

  /** The reply text; a call that returns nothing has none. */
  function ReplyMessage(r: Reply): string {
    match r
    case Rented => "Book rented successfully."
    case Queued => "Book is currently unavailable and has been added to the waiting list."
    case Done => ""
  }

  /** The exception's Message, which the controller returns. An
      ArgumentOutOfRangeException appends the parameter name, and AddDays
      rejects a day count of ten thousand years or more before it adds anything. */
  function ErrorMessage(e: Error): string {
    match e
    case BookNotFound => "Book not found."
    case InvalidRentalRecord => "Invalid rental record."
    case RentalNotFound => "Rental not found."
    case ExtensionLimitReached => "Maximum extension limit reached."
    case NullReference => "Object reference not set to an instance of an object."
    case DateOutOfRange(days) =>
      if days <= -DaysTo10000 || DaysTo10000 <= days then "Value to add was out of range. (Parameter 'value')"
      else "The added or subtracted value results in an un-representable DateTime. (Parameter 'value')"
    case ForeignKeyViolation => "An error occurred while saving the entity changes. See the inner exception for details."
  }

  /** The store after a call, what the call returned or threw, and the
      notifications it sent, in order. An exception does not undo updates that
      were saved before it was thrown. */
  datatype Step = Step(store: Store, result: Result<Reply, Error>, sent: seq<AvailabilityNotice>)

  /** Everything but the waiting list is as before. */
  predicate SameLedger(s: Store, t: Store) {
    t.users == s.users && t.books == s.books && t.rentals == s.rentals
    && t.nextRentalId == s.nextRentalId && t.nextWaitingId == s.nextWaitingId
  }

  /** AddToWaitingList: append a request stamped `now` under a fresh id. The
      insert is rejected by the foreign keys to the user and book tables. */
  function AddToWaitingList(s: Store, userId: int, bookId: int, now: Instant): (r: Step)
    ensures r.sent == []
    ensures userId !in s.users || bookId !in s.books ==> r == Step(s, Failure(ForeignKeyViolation), [])
    ensures userId in s.users && bookId in s.books ==>
      && r.result == Success(Done)
      && r.store.users == s.users && r.store.books == s.books && r.store.rentals == s.rentals
      && r.store.nextRentalId == s.nextRentalId
      && |r.store.waiting| == |s.waiting| + 1
      && r.store.waiting[..|s.waiting|] == s.waiting
      && r.store.waiting[|s.waiting|] == WaitingEntry(s.nextWaitingId, bookId, userId, now)
      && r.store.nextWaitingId > s.nextWaitingId
  {
    if userId !in s.users || bookId !in s.books then
      Step(s, Failure(ForeignKeyViolation), [])
    else
      var entry := WaitingEntry(s.nextWaitingId, bookId, userId, now);
      Step(s.(waiting := s.waiting + [entry], nextWaitingId := s.nextWaitingId + 1), Success(Done), [])
  }

  /** DeleteWaitingList: drop the user's earliest request for the book, if there is one. */
  function DeleteWaitingList(s: Store, userId: int, bookId: int): (r: Step)
    ensures r.result == Success(Done) && r.sent == []
    ensures SameLedger(s, r.store)
    ensures NoMatch(s.waiting, ForUserBook(userId, bookId)) ==> r.store == s
    ensures !NoMatch(s.waiting, ForUserBook(userId, bookId)) ==>
      exists i :: IsEarliest(s.waiting, ForUserBook(userId, bookId), i)
                  && r.store.waiting == RemoveAt(s.waiting, i)
  {
    match EarliestIndex(s.waiting, ForUserBook(userId, bookId))
    case None => Step(s, Success(Done), [])
    case Some(i) => Step(s.(waiting := RemoveAt(s.waiting, i)), Success(Done), [])
  }

  /** The loaded navigations of entry `w` are the rows its foreign keys point
      at: the user with the entry's UserId and the stored book with its BookId
      (compared by title, the only field promotion reads). */
  predicate NavFits(s: Store, navs: map<int, Nav>, w: WaitingEntry) {
    w.waitingListId in navs ==>
      && navs[w.waitingListId].user.userId == w.userId
      && w.bookId in s.books
      && navs[w.waitingListId].book.title == s.books[w.bookId].title
  }

  /** Every loaded navigation of a stored entry is the row its key refers to. */
  predicate NavsAgree(s: Store, navs: map<int, Nav>) {
    forall i :: 0 <= i < |s.waiting| ==> NavFits(s, navs, s.waiting[i])
  }

  /** NotifyNextInLine: tell the earliest requester of the book that it is
      available and delete their request. Only the earliest entry is
      considered, and only when its User and Book navigations are loaded;
      the message goes to the user's Name. No rental is created. */
  function NotifyNextInLine(s: Store, bookId: int, navs: map<int, Nav>): (r: Step)
    ensures r.result == Success(Done)
    ensures SameLedger(s, r.store)
    ensures NoMatch(s.waiting, ForBook(bookId)) ==> r.store == s && r.sent == []
    ensures !NoMatch(s.waiting, ForBook(bookId)) ==>
      exists i :: IsEarliest(s.waiting, ForBook(bookId), i) &&
        if s.waiting[i].waitingListId in navs then
          var nav := navs[s.waiting[i].waitingListId];
          r.store.waiting == RemoveAt(s.waiting, i)
          && r.sent == [AvailabilityNotice(nav.user.userId, nav.user.name, nav.book.title)]
        else
          r.store == s && r.sent == []
    ensures NavsAgree(s, navs) ==>
      forall k :: 0 <= k < |r.sent| ==> bookId in s.books && r.sent[k].bookTitle == s.books[bookId].title
  {
    match EarliestIndex(s.waiting, ForBook(bookId))
    case None => Step(s, Success(Done), [])
    case Some(i) =>
      var next := s.waiting[i];
      if next.waitingListId in navs then
        var nav := navs[next.waitingListId];
        assert NavsAgree(s, navs) ==> NavFits(s, navs, next);
        Step(s.(waiting := RemoveAt(s.waiting, i)), Success(Done),
             [AvailabilityNotice(nav.user.userId, nav.user.name, nav.book.title)])
      else
        Step(s, Success(Done), [])
  }

  /** The rental RentBook records for `userId` taking `bookId` at `now`. */
  function NewRental(userId: int, bookId: int, now: Instant, due: Instant): Rental {
    Rental(userId, bookId, now, None, due, false, 0)
  }

  /** RentBook: fail on an unknown book, queue the user behind a rented one, or
      rent an available one for 14 days and drop the user's own waiting entry.
      The book is saved as rented before the due date is computed and before
      the rental is inserted, so a failure of either leaves it marked. */
  function RentBook(s: Store, userId: int, bookId: int, now: Instant): (r: Step)
    ensures r.sent == []
    ensures r.store.users == s.users
    ensures bookId !in s.books ==> r == Step(s, Failure(BookNotFound), [])
    ensures bookId in s.books && s.books[bookId].isRented ==>
      if userId !in s.users then r == Step(s, Failure(ForeignKeyViolation), [])
      else
        && r.result == Success(Queued)
        && r.store.books == s.books && r.store.rentals == s.rentals
        && r.store.nextRentalId == s.nextRentalId
        && r.store.waiting == s.waiting + [WaitingEntry(s.nextWaitingId, bookId, userId, now)]
        && r.store.nextWaitingId > s.nextWaitingId
    ensures bookId in s.books && !s.books[bookId].isRented ==>
      && r.store.books == s.books[bookId := s.books[bookId].(isRented := true)]
      && r.store.nextWaitingId == s.nextWaitingId
      && (match AddDays(now, LoanDays)
          case None =>
            && r.result == Failure(DateOutOfRange(LoanDays))
            && r.store.rentals == s.rentals && r.store.nextRentalId == s.nextRentalId
            && r.store.waiting == s.waiting
          case Some(due) =>
            if userId !in s.users then
              && r.result == Failure(ForeignKeyViolation)
              && r.store.rentals == s.rentals && r.store.nextRentalId == s.nextRentalId
              && r.store.waiting == s.waiting
            else
              && r.result == Success(Rented)
              && due - now == LoanDays * TicksPerDay
              && r.store.rentals == s.rentals[s.nextRentalId := NewRental(userId, bookId, now, due)]
              && r.store.nextRentalId > s.nextRentalId
              && r.store.waiting == DeleteWaitingList(s, userId, bookId).store.waiting)
  {
    if bookId !in s.books then
      Step(s, Failure(BookNotFound), [])
    else if s.books[bookId].isRented then
      var queued := AddToWaitingList(s, userId, bookId, now);
      if queued.result.Failure? then queued else Step(queued.store, Success(Queued), [])
    else
      var marked := s.(books := s.books[bookId := s.books[bookId].(isRented := true)]);
      match AddDays(now, LoanDays)
      case None => Step(marked, Failure(DateOutOfRange(LoanDays)), [])
      case Some(due) =>
        if userId !in marked.users then
          Step(marked, Failure(ForeignKeyViolation), [])
        else
          var added := marked.(rentals := marked.rentals[marked.nextRentalId := NewRental(userId, bookId, now, due)],
                               nextRentalId := marked.nextRentalId + 1);
          Step(DeleteWaitingList(added, userId, bookId).store, Success(Rented), [])
  }

  /** RentBook with its two late checks moved ahead of the save: the due date
      is computed and the user is looked up before the book is marked rented,
      so every failure leaves the store as it was. Replies and errors are those
      of RentBook, and so is the store whenever it succeeds. */
  function RentBookChecked(s: Store, userId: int, bookId: int, now: Instant): (r: Step)
    ensures r.result == RentBook(s, userId, bookId, now).result
    ensures r.sent == []
    ensures r.result.Failure? ==> r.store == s
    ensures r.result.Success? ==> r.store == RentBook(s, userId, bookId, now).store
  {
    if bookId !in s.books then
      Step(s, Failure(BookNotFound), [])
    else if s.books[bookId].isRented then
      var queued := AddToWaitingList(s, userId, bookId, now);
      if queued.result.Failure? then queued else Step(queued.store, Success(Queued), [])
    else
      match AddDays(now, LoanDays)
      case None => Step(s, Failure(DateOutOfRange(LoanDays)), [])
      case Some(due) =>
        if userId !in s.users then
          Step(s, Failure(ForeignKeyViolation), [])
        else
          var added := s.(books := s.books[bookId := s.books[bookId].(isRented := true)],
                          rentals := s.rentals[s.nextRentalId := NewRental(userId, bookId, now, due)],
                          nextRentalId := s.nextRentalId + 1);
          Step(DeleteWaitingList(added, userId, bookId).store, Success(Rented), [])
  }

  /** The store after ReturnBook has saved the return and freed the book,
      before the next waiting user is promoted. */
  function Freed(s: Store, rentalId: int, now: Instant): Store
    requires rentalId in s.rentals && s.rentals[rentalId].bookId in s.books
  {
    var rental := s.rentals[rentalId];
    s.(rentals := s.rentals[rentalId := rental.(returnedOn := Some(now))],
       books := s.books[rental.bookId := s.books[rental.bookId].(isRented := false)])
  }

  /** ReturnBook: close an open rental at `now`, free its book and promote the
      next waiting user. A missing or already closed rental is rejected. */
  function ReturnBook(s: Store, rentalId: int, now: Instant, navs: map<int, Nav>): (r: Step)
    ensures (rentalId !in s.rentals || s.rentals[rentalId].returnedOn.Some?) ==>
      r == Step(s, Failure(InvalidRentalRecord), [])
    ensures rentalId in s.rentals && s.rentals[rentalId].returnedOn.None? ==>
      var rental := s.rentals[rentalId];
      && r.store.rentals == s.rentals[rentalId := rental.(returnedOn := Some(now))]
      && r.store.users == s.users
      && r.store.nextRentalId == s.nextRentalId && r.store.nextWaitingId == s.nextWaitingId
      && (rental.bookId !in s.books ==>
            r == Step(s.(rentals := r.store.rentals), Failure(NullReference), []))
      && (rental.bookId in s.books ==>
            && r.result == Success(Done)
            && r.store.books == s.books[rental.bookId := s.books[rental.bookId].(isRented := false)]
            && r == NotifyNextInLine(Freed(s, rentalId, now), rental.bookId, navs))
  {
    if rentalId !in s.rentals || s.rentals[rentalId].returnedOn.Some? then
      Step(s, Failure(InvalidRentalRecord), [])
    else
      var rental := s.rentals[rentalId];
      var closed := s.(rentals := s.rentals[rentalId := rental.(returnedOn := Some(now))]);
      if rental.bookId !in closed.books then
        Step(closed, Failure(NullReference), [])
      else
        NotifyNextInLine(Freed(s, rentalId, now), rental.bookId, navs)
  }

  /** ExtendDueDate: push the due date back by `days` (any sign) unless the
      rental is unknown or has had MaxExtensions extensions. Whether the rental
      was returned is not examined. */
  function ExtendDueDate(s: Store, rentalId: int, days: Int32): (r: Step)
    ensures r.sent == []
    ensures rentalId !in s.rentals ==> r == Step(s, Failure(RentalNotFound), [])
    ensures rentalId in s.rentals && s.rentals[rentalId].extensionCount >= MaxExtensions ==>
      r == Step(s, Failure(ExtensionLimitReached), [])
    ensures rentalId in s.rentals && s.rentals[rentalId].extensionCount < MaxExtensions ==>
      var before := s.rentals[rentalId];
      match AddDays(before.dueDate, days)
      case None => r == Step(s, Failure(DateOutOfRange(days)), [])
      case Some(due) =>
        && r.result == Success(Done)
        && r.store.users == s.users && r.store.books == s.books && r.store.waiting == s.waiting
        && r.store.nextRentalId == s.nextRentalId && r.store.nextWaitingId == s.nextWaitingId
        && r.store.rentals.Keys == s.rentals.Keys
        && (forall k :: k in s.rentals && k != rentalId ==> r.store.rentals[k] == s.rentals[k])
        && r.store.rentals[rentalId].dueDate - before.dueDate == days * TicksPerDay
        && r.store.rentals[rentalId].extensionCount == before.extensionCount + 1
        && r.store.rentals[rentalId] == before.(dueDate := due, extensionCount := before.extensionCount + 1)
  {
    if rentalId !in s.rentals then
      Step(s, Failure(RentalNotFound), [])
    else
      var rental := s.rentals[rentalId];
      if rental.extensionCount >= MaxExtensions then
        Step(s, Failure(ExtensionLimitReached), [])
      else
        match AddDays(rental.dueDate, days)
        case None => Step(s, Failure(DateOutOfRange(days)), [])
        case Some(due) =>
          var extended := rental.(dueDate := due, extensionCount := rental.extensionCount + 1);
          Step(s.(rentals := s.rentals[rentalId := extended]), Success(Done), [])
  }

  /** GetUserRentalHistory: every stored rental of the user, open or returned. */
  function GetUserRentalHistory(s: Store, userId: int): (h: map<int, Rental>)
    ensures forall id :: id in h <==> id in s.rentals && s.rentals[id].userId == userId
    ensures forall id :: id in h ==> h[id] == s.rentals[id]
  {
    map id | id in s.rentals && s.rentals[id].userId == userId :: s.rentals[id]
  }
}

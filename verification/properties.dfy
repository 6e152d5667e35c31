/** Properties of call sequences: failures, repeated returns and extensions,
    promotion, the overdue report and the hand-over scenario. */
module Properties {
  import opened Common
  import opened Models
  import opened WaitingQueue
  import opened BookService
  import opened RentalRepository
  import opened Ledger

  /** The failures detected before any update leave the store untouched and
      send nothing. Only three are thrown after an update was saved:
      NullReference in ReturnBook, and DateOutOfRange or a rejected rental
      insert in RentBook once the book has been marked rented. */
  lemma FailuresChangeNothing(s: Store, op: Op)
    requires Apply(s, op).result.Failure?
    requires !(op.Rent? && op.bookId in s.books && !s.books[op.bookId].isRented)
    requires Apply(s, op).result.error != NullReference
    ensures Apply(s, op) == Step(s, Apply(s, op).result, [])
  {
  }

  /** The error messages the caller sees. */
  lemma FailureMessages(s: Store, userId: int, bookId: int, rentalId: int, now: Instant, navs: map<int, Nav>, days: Int32)
    ensures bookId !in s.books ==>
      ErrorMessage(RentBook(s, userId, bookId, now).result.error) == "Book not found."
    ensures rentalId !in s.rentals || s.rentals[rentalId].returnedOn.Some? ==>
      ErrorMessage(ReturnBook(s, rentalId, now, navs).result.error) == "Invalid rental record."
    ensures rentalId !in s.rentals ==>
      ErrorMessage(ExtendDueDate(s, rentalId, days).result.error) == "Rental not found."
    ensures rentalId in s.rentals && s.rentals[rentalId].extensionCount >= MaxExtensions ==>
      ErrorMessage(ExtendDueDate(s, rentalId, days).result.error) == "Maximum extension limit reached."
  {
  }

  /** The two messages of an ArgumentOutOfRangeException from AddDays: the
      loan period always fits, so a late rent sees the date-arithmetic text,
      while an extension by ten thousand years or more is refused outright. */
  lemma DateFailureMessages(s: Store, userId: int, bookId: int, rentalId: int, now: Instant, days: Int32)
    ensures bookId in s.books && !s.books[bookId].isRented && AddDays(now, LoanDays).None? ==>
      ErrorMessage(RentBook(s, userId, bookId, now).result.error)
        == "The added or subtracted value results in an un-representable DateTime. (Parameter 'value')"
    ensures rentalId in s.rentals && s.rentals[rentalId].extensionCount < MaxExtensions
            && (days <= -DaysTo10000 || DaysTo10000 <= days) ==>
      ErrorMessage(ExtendDueDate(s, rentalId, days).result.error) == "Value to add was out of range. (Parameter 'value')"
  {
    if rentalId in s.rentals && s.rentals[rentalId].extensionCount < MaxExtensions
       && (days <= -DaysTo10000 || DaysTo10000 <= days) {
      var due := s.rentals[rentalId].dueDate;
      assert days * TicksPerDay <= -DaysTo10000 * TicksPerDay || DaysTo10000 * TicksPerDay <= days * TicksPerDay;
      assert AddDays(due, days).None?;
    }
  }

  /** The replies of a successful RentBook. */
  lemma RentReplies(s: Store, userId: int, bookId: int, now: Instant)
    requires bookId in s.books
    ensures s.books[bookId].isRented && userId in s.users ==>
      ReplyMessage(RentBook(s, userId, bookId, now).result.value)
        == "Book is currently unavailable and has been added to the waiting list."
    ensures !s.books[bookId].isRented && AddDays(now, LoanDays).Some? && userId in s.users ==>
      ReplyMessage(RentBook(s, userId, bookId, now).result.value) == "Book rented successfully."
  {
  }

  /** In a valid store a successful rent adds exactly one rental, under a
      fresh id, open, due in 14 days and never extended. */
  lemma RentAddsOneRental(s: Store, userId: int, bookId: int, now: Instant)
    requires Valid(s)
    requires RentBook(s, userId, bookId, now).result == Success(Rented)
    ensures var t := RentBook(s, userId, bookId, now).store;
      && s.nextRentalId !in s.rentals
      && t.rentals.Keys == s.rentals.Keys + {s.nextRentalId}
      && |t.rentals| == |s.rentals| + 1
      && (forall k :: k in s.rentals ==> t.rentals[k] == s.rentals[k])
      && var r := t.rentals[s.nextRentalId];
         r.userId == userId && r.bookId == bookId && r.rentedOn == now
         && r.dueDate == now + 14 * TicksPerDay && r.returnedOn.None? && r.extensionCount == 0
  {
    var t := RentBook(s, userId, bookId, now).store;
    assert s.nextRentalId !in s.rentals;
    assert t.rentals.Keys == s.rentals.Keys + {s.nextRentalId};
  }

  /** A rent clears the user's own earliest request for the book. */
  lemma RentClearsOwnRequest(s: Store, userId: int, bookId: int, now: Instant, i: int)
    requires RentBook(s, userId, bookId, now).result == Success(Rented)
    requires IsEarliest(s.waiting, ForUserBook(userId, bookId), i)
    ensures RentBook(s, userId, bookId, now).store.waiting == RemoveAt(s.waiting, i)
  {
    EarliestIndexComplete(s.waiting, ForUserBook(userId, bookId), i);
  }

  /** A second return of the same rental is rejected and changes nothing, so
      the book is not freed twice. */
  lemma SecondReturnRejected(s: Store, rentalId: int, t1: Instant, t2: Instant, n1: map<int, Nav>, n2: map<int, Nav>)
    requires ReturnBook(s, rentalId, t1, n1).result.Success?
    ensures var once := ReturnBook(s, rentalId, t1, n1).store;
      ReturnBook(once, rentalId, t2, n2) == Step(once, Failure(InvalidRentalRecord), [])
  {
  }

  /** Starting from no extensions, once two extensions succeed a third is refused. */
  lemma ThirdExtensionRejected(s: Store, rentalId: int, d1: Int32, d2: Int32, d3: Int32)
    requires rentalId in s.rentals && s.rentals[rentalId].extensionCount == 0
    requires ExtendDueDate(s, rentalId, d1).result.Success?
    requires ExtendDueDate(ExtendDueDate(s, rentalId, d1).store, rentalId, d2).result.Success?
    ensures var s2 := ExtendDueDate(ExtendDueDate(s, rentalId, d1).store, rentalId, d2).store;
      && s2.rentals[rentalId].extensionCount == MaxExtensions
      && s2.rentals[rentalId].dueDate == s.rentals[rentalId].dueDate + (d1 + d2) * TicksPerDay
      && ExtendDueDate(s2, rentalId, d3) == Step(s2, Failure(ExtensionLimitReached), [])
  {
  }

  /** Promotion is a notice, not a hold: a return creates no rental and leaves
      the book available whoever was told about it. */
  lemma PromotionIsNoReservation(s: Store, rentalId: int, now: Instant, navs: map<int, Nav>)
    requires ReturnBook(s, rentalId, now, navs).result.Success?
    ensures var t := ReturnBook(s, rentalId, now, navs).store;
      && t.rentals.Keys == s.rentals.Keys
      && t.nextRentalId == s.nextRentalId
      && !t.books[s.rentals[rentalId].bookId].isRented
  {
  }

  /** Promotion picks the earliest request for the returned book, and with
      its navigations loaded notifies that entry's user, by Name, about the
      returned book's title, and drops the request. */
  lemma ReturnPromotesEarliest(s: Store, rentalId: int, now: Instant, navs: map<int, Nav>, i: int)
    requires rentalId in s.rentals && s.rentals[rentalId].returnedOn.None?
    requires s.rentals[rentalId].bookId in s.books
    requires NavsAgree(s, navs)
    requires IsEarliest(s.waiting, ForBook(s.rentals[rentalId].bookId), i)
    requires s.waiting[i].waitingListId in navs
    ensures var r := ReturnBook(s, rentalId, now, navs);
      var b := s.rentals[rentalId].bookId;
      && r.store.waiting == RemoveAt(s.waiting, i)
      && r.sent == [AvailabilityNotice(s.waiting[i].userId, navs[s.waiting[i].waitingListId].user.name, s.books[b].title)]
  {
    EarliestIndexComplete(s.waiting, ForBook(s.rentals[rentalId].bookId), i);
    assert NavFits(s, navs, s.waiting[i]);
  }

  /** With the earliest request's navigations not loaded, a return frees the
      book but leaves the waiting list as it was and tells nobody. */
  lemma ReturnWithUnloadedNavigation(s: Store, rentalId: int, now: Instant, navs: map<int, Nav>, i: int)
    requires rentalId in s.rentals && s.rentals[rentalId].returnedOn.None?
    requires s.rentals[rentalId].bookId in s.books
    requires IsEarliest(s.waiting, ForBook(s.rentals[rentalId].bookId), i)
    requires s.waiting[i].waitingListId !in navs
    ensures ReturnBook(s, rentalId, now, navs).store.waiting == s.waiting
    ensures ReturnBook(s, rentalId, now, navs).sent == []
  {
    EarliestIndexComplete(s.waiting, ForBook(s.rentals[rentalId].bookId), i);
  }

  /** With no request for the returned book, the waiting list is untouched and nobody is told. */
  lemma ReturnWithoutWaiters(s: Store, rentalId: int, now: Instant, navs: map<int, Nav>)
    requires rentalId in s.rentals && s.rentals[rentalId].returnedOn.None?
    requires s.rentals[rentalId].bookId in s.books
    requires NoMatch(s.waiting, ForBook(s.rentals[rentalId].bookId))
    ensures ReturnBook(s, rentalId, now, navs).store.waiting == s.waiting
    ensures ReturnBook(s, rentalId, now, navs).sent == []
  {
  }

  /** A rental made by RentBook is overdue exactly once its due date has
      passed while it is open, and drops out of the report once returned. */
  lemma RentedThenReturnedLeavesOverdue(s: Store, userId: int, bookId: int, t0: Instant,
                                        t1: Instant, navs: map<int, Nav>, later: Instant)
    requires RentBook(s, userId, bookId, t0).result == Success(Rented)
    ensures var rented := RentBook(s, userId, bookId, t0).store;
      var id := s.nextRentalId;
      && (id in GetOverdueRentals(rented.rentals, later) <==> rented.rentals[id].dueDate < later)
      && ReturnBook(rented, id, t1, navs).result.Success?
      && id !in GetOverdueRentals(ReturnBook(rented, id, t1, navs).store.rentals, later)
  {
    var rented := RentBook(s, userId, bookId, t0).store;
    assert rented.rentals[s.nextRentalId].bookId == bookId;
  }

  /** The hand-over scenario: A rents an available book that nobody waits
      for and B is queued behind A. When B's request has its User and Book
      navigations loaded and they agree with its keys, A's return tells B,
      and then B rents it. */
  lemma HandOver(s: Store, x: int, a: int, b: int, t0: Instant, t1: Instant, t2: Instant, t3: Instant, navs: map<int, Nav>)
    requires Valid(s)
    requires x in s.books && !s.books[x].isRented
    requires a in s.users && b in s.users
    requires NoMatch(s.waiting, ForBook(x))
    requires AddDays(t0, LoanDays).Some? && AddDays(t3, LoanDays).Some?
    requires s.nextWaitingId in navs
    requires NavsAgree(RentBook(RentBook(s, a, x, t0).store, b, x, t1).store, navs)
    ensures
      var s1 := RentBook(s, a, x, t0);
      var s2 := RentBook(s1.store, b, x, t1);
      var s3 := ReturnBook(s2.store, s.nextRentalId, t2, navs);
      var s4 := RentBook(s3.store, b, x, t3);
      && s1.result == Success(Rented)
      && s1.store.rentals[s.nextRentalId].dueDate == t0 + 14 * TicksPerDay
      && s2.result == Success(Queued)
      && s3.result == Success(Done)
      && !s3.store.books[x].isRented
      && s3.sent == [AvailabilityNotice(b, navs[s.nextWaitingId].user.name, s.books[x].title)]
      && NoMatch(s3.store.waiting, ForBook(x))
      && s4.result == Success(Rented)
  {
    var s1 := RentBook(s, a, x, t0);
    assert NoMatch(s.waiting, ForUserBook(a, x)) by {
      forall j | 0 <= j < |s.waiting| ensures !Matches(s.waiting[j], ForUserBook(a, x)) {
        assert !Matches(s.waiting[j], ForBook(x));
      }
    }
    assert s1.store.waiting == s.waiting;
    var s2 := RentBook(s1.store, b, x, t1);
    var n := |s.waiting|;
    assert s2.store.waiting == s.waiting + [WaitingEntry(s.nextWaitingId, x, b, t1)];
    assert IsEarliest(s2.store.waiting, ForBook(x), n);
    assert s2.store.books[x].title == s.books[x].title;
    ReturnPromotesEarliest(s2.store, s.nextRentalId, t2, navs, n);
    var s3 := ReturnBook(s2.store, s.nextRentalId, t2, navs);
    assert s3.store.waiting == s.waiting;
  }

  /** A queued request gets an id that no stored request already has. */
  lemma EnqueueIdIsFresh(s: Store, userId: int, bookId: int, now: Instant)
    requires Valid(s)
    ensures var t := AddToWaitingList(s, userId, bookId, now).store;
      AddToWaitingList(s, userId, bookId, now).result.Success? ==>
      forall i :: 0 <= i < |s.waiting| ==> s.waiting[i].waitingListId != t.waiting[|s.waiting|].waitingListId
  {
  }

  /** Adding a rental under a new id adds it to its user's history only. */
  lemma HistoryOfAddedRental(s: Store, t: Store, id: int, r: Rental, u: int)
    requires id !in s.rentals && t.rentals == s.rentals[id := r]
    ensures GetUserRentalHistory(t, u).Keys
            == GetUserRentalHistory(s, u).Keys + (if r.userId == u then {id} else {})
  {
  }

  /** A successful rent shows up in the renter's history and in nobody else's. */
  lemma HistoryRecordsRent(s: Store, userId: int, bookId: int, now: Instant, other: int)
    requires Valid(s)
    requires RentBook(s, userId, bookId, now).result == Success(Rented)
    ensures var t := RentBook(s, userId, bookId, now).store;
      && GetUserRentalHistory(t, userId).Keys == GetUserRentalHistory(s, userId).Keys + {s.nextRentalId}
      && (other != userId ==> GetUserRentalHistory(t, other).Keys == GetUserRentalHistory(s, other).Keys)
      && GetUserRentalHistory(t, userId) == GetUserRentalHistory(s, userId)[s.nextRentalId := t.rentals[s.nextRentalId]]
      && (other != userId ==> GetUserRentalHistory(t, other) == GetUserRentalHistory(s, other))
  {
    var t := RentBook(s, userId, bookId, now).store;
    var due := AddDays(now, LoanDays).value;
    assert s.nextRentalId !in s.rentals;
    assert t.rentals == s.rentals[s.nextRentalId := NewRental(userId, bookId, now, due)];
    HistoryOfAddedRental(s, t, s.nextRentalId, NewRental(userId, bookId, now, due), userId);
    HistoryOfAddedRental(s, t, s.nextRentalId, NewRental(userId, bookId, now, due), other);
  }

  /** Book `x` is marked rented but none of its rentals is open, so no
      return can free it. */
  predicate Stranded(s: Store, x: int) {
    x in s.books && s.books[x].isRented && forall id :: id in s.rentals ==> !OpenFor(s, id, x)
  }

  /** No call frees a stranded book: a rent of it only queues, a rent of
      another book opens a rental of that book, and a return frees the book
      of the open rental it closes, which is never this one. */
  lemma ApplyKeepsStranded(s: Store, op: Op, x: int)
    requires Stranded(s, x)
    ensures Stranded(Apply(s, op).store, x)
  {
    var t := Apply(s, op).store;
    match op {
      case Rent(u, b, now) =>
        assert forall id :: id in t.rentals && id !in s.rentals ==> t.rentals[id].bookId == b;
      case RentChecked(u, b, now) =>
        assert forall id :: id in t.rentals && id !in s.rentals ==> t.rentals[id].bookId == b;
      case Return(id, now, navs) =>
        if id in s.rentals && s.rentals[id].returnedOn.None? {
          assert !OpenFor(s, id, x);
        }
      case Extend(id, days) =>
      case Enqueue(u, b, now) =>
      case Dequeue(u, b) =>
      case Notify(b, navs) =>
    }
  }

  /** A stranded book stays stranded under any sequence of calls. */
  lemma {:induction false} RunKeepsStranded(s: Store, ops: seq<Op>, x: int)
    requires Stranded(s, x)
    ensures Stranded(Run(s, ops), x)
    decreases |ops|
  {
    if |ops| > 0 {
      ApplyKeepsStranded(s, ops[0], x);
      RunKeepsStranded(Apply(s, ops[0]).store, ops[1..], x);
    }
  }

  /** As written, renting an available book for a user id with no user row
      fails only after the book was saved as rented, and from then on no
      sequence of calls makes the book available again. The corrected rent
      leaves such a store as it was. */
  lemma UnknownRenterStrandsBook(s: Store, u: int, x: int, now: Instant, ops: seq<Op>)
    requires Valid(s)
    requires x in s.books && !s.books[x].isRented && u !in s.users
    ensures RentBook(s, u, x, now).result.Failure?
    ensures Stranded(RentBook(s, u, x, now).store, x)
    ensures Stranded(Run(RentBook(s, u, x, now).store, ops), x)
    ensures RentBookChecked(s, u, x, now).store == s
  {
    var t := RentBook(s, u, x, now).store;
    assert t.rentals == s.rentals;
    assert forall id :: id in s.rentals ==> !OpenFor(s, id, x);
    RunKeepsStranded(t, ops, x);
  }
}

/** The cross-store invariant of the rental service: a book is marked rented
    exactly when one rental of it is open, and the transitions keep it. */
module Ledger {
  import opened Common
  import opened Models
  import opened WaitingQueue
  import opened BookService

  /** Rental `id` exists, is for book `b` and has not been returned. */
  predicate OpenFor(s: Store, id: int, b: int) {
    id in s.rentals && s.rentals[id].bookId == b && s.rentals[id].returnedOn.None?
  }

  /** The open rentals of book `b`. */
  function OpenRentals(s: Store, b: int): set<int> {
    set id | id in s.rentals && OpenFor(s, id, b)
  }

  /** Every rental refers to a stored book and a known user (the foreign
      keys of the rental table), has an id below the identity counter and has
      been extended at most MaxExtensions times. */
  predicate RentalsWellFormed(s: Store) {
    forall id :: id in s.rentals ==>
      && s.rentals[id].bookId in s.books
      && s.rentals[id].userId in s.users
      && id < s.nextRentalId
      && 0 <= s.rentals[id].extensionCount <= MaxExtensions
  }

  /** Book flags agree with the ledger: rented iff some rental of it is open,
      and never two open rentals of one book. */
  ghost predicate FlagsAgree(s: Store) {
    && (forall b :: b in s.books ==> (s.books[b].isRented <==> exists id :: OpenFor(s, id, b)))
    && (forall id1, id2, b :: OpenFor(s, id1, b) && OpenFor(s, id2, b) ==> id1 == id2)
  }

  /** Waiting-list entries refer to a stored book and a known user, have ids
      below the identity counter, and no two share an id (it is the key). */
  predicate QueueWellFormed(s: Store) {
    && (forall i :: 0 <= i < |s.waiting| ==>
          && s.waiting[i].waitingListId < s.nextWaitingId
          && s.waiting[i].bookId in s.books
          && s.waiting[i].userId in s.users)
    && UniqueIds(s.waiting)
  }

  ghost predicate Valid(s: Store) {
    RentalsWellFormed(s) && FlagsAgree(s) && QueueWellFormed(s)
  }

  /** In a valid store a book is rented iff exactly one of its rentals is
      open, and otherwise none is. */
  lemma OpenRentalCount(s: Store, b: int)
    requires Valid(s) && b in s.books
    ensures |OpenRentals(s, b)| == if s.books[b].isRented then 1 else 0
  {
    if s.books[b].isRented {
      var id :| OpenFor(s, id, b);
      assert OpenRentals(s, b) == {id};
    } else {
      assert OpenRentals(s, b) == {};
    }
  }

  /** In a valid store deleting the entry with a given WaitingListId deletes
      exactly the entry at its position: no other entry carries that id. */
  lemma KeyedDeleteIsRemoveAt(s: Store, i: nat)
    requires Valid(s) && i < |s.waiting|
    ensures forall j :: 0 <= j < |s.waiting| && s.waiting[j].waitingListId == s.waiting[i].waitingListId ==> j == i
    ensures DeleteById(s.waiting, s.waiting[i].waitingListId) == RemoveAt(s.waiting, i)
  {
    DeleteByIdIsRemoveAt(s.waiting, i);
  }

  /** Deleting one waiting entry keeps a valid store valid. */
  lemma RemoveEntryKeepsValid(s: Store, t: Store, i: nat)
    requires Valid(s) && SameLedger(s, t)
    requires i < |s.waiting| && t.waiting == RemoveAt(s.waiting, i)
    ensures Valid(t)
  {
    forall j, k | 0 <= j < k < |t.waiting|
      ensures t.waiting[j].waitingListId != t.waiting[k].waitingListId
    {
      var j' := if j < i then j else j + 1;
      var k' := if k < i then k else k + 1;
      assert t.waiting[j] == s.waiting[j'] && t.waiting[k] == s.waiting[k'];
    }
    forall j | 0 <= j < |t.waiting|
      ensures t.waiting[j].waitingListId < t.nextWaitingId
      ensures t.waiting[j].bookId in t.books && t.waiting[j].userId in t.users
    {
      var j' := if j < i then j else j + 1;
      assert t.waiting[j] == s.waiting[j'];
    }
    assert forall id, b :: OpenFor(t, id, b) <==> OpenFor(s, id, b);
  }

  lemma AddToWaitingListKeepsValid(s: Store, userId: int, bookId: int, now: Instant)
    requires Valid(s)
    ensures Valid(AddToWaitingList(s, userId, bookId, now).store)
  {
    var t := AddToWaitingList(s, userId, bookId, now).store;
    if t != s {
      var n := |s.waiting|;
      assert forall id, b :: OpenFor(t, id, b) <==> OpenFor(s, id, b);
      assert forall j :: 0 <= j < n ==> t.waiting[j] == s.waiting[j];
      forall j, k | 0 <= j < k < |t.waiting|
        ensures t.waiting[j].waitingListId != t.waiting[k].waitingListId
      {
        if k == n {
          assert t.waiting[j] == s.waiting[j];
        }
      }
    }
  }

  lemma DeleteWaitingListKeepsValid(s: Store, userId: int, bookId: int)
    requires Valid(s)
    ensures Valid(DeleteWaitingList(s, userId, bookId).store)
  {
    var t := DeleteWaitingList(s, userId, bookId).store;
    if !NoMatch(s.waiting, ForUserBook(userId, bookId)) {
      var i :| IsEarliest(s.waiting, ForUserBook(userId, bookId), i) && t.waiting == RemoveAt(s.waiting, i);
      RemoveEntryKeepsValid(s, t, i);
    }
  }

  lemma NotifyNextInLineKeepsValid(s: Store, bookId: int, navs: map<int, Nav>)
    requires Valid(s)
    ensures Valid(NotifyNextInLine(s, bookId, navs).store)
  {
    var t := NotifyNextInLine(s, bookId, navs).store;
    if !NoMatch(s.waiting, ForBook(bookId)) {
      var i :| IsEarliest(s.waiting, ForBook(bookId), i) &&
        if s.waiting[i].waitingListId in navs then t.waiting == RemoveAt(s.waiting, i) else t == s;
      if s.waiting[i].waitingListId in navs {
        RemoveEntryKeepsValid(s, t, i);
      }
    }
  }

  /** The store RentBook builds before cleaning the waiting list: the book
      marked rented and the new rental added under the next id. */
  function WithNewRental(s: Store, userId: int, bookId: int, now: Instant, due: Instant): Store
    requires bookId in s.books
  {
    s.(books := s.books[bookId := s.books[bookId].(isRented := true)],
       rentals := s.rentals[s.nextRentalId := NewRental(userId, bookId, now, due)],
       nextRentalId := s.nextRentalId + 1)
  }

  /** Renting an available book in a valid store gives a valid store. */
  lemma WithNewRentalKeepsValid(s: Store, userId: int, bookId: int, now: Instant, due: Instant)
    requires Valid(s) && bookId in s.books && !s.books[bookId].isRented && userId in s.users
    ensures Valid(WithNewRental(s, userId, bookId, now, due))
  {
    assert WithNewRental(s, userId, bookId, now, due).books.Keys == s.books.Keys;
    var id := s.nextRentalId;
    var added := WithNewRental(s, userId, bookId, now, due);
    assert id !in s.rentals;
    assert forall k, b :: OpenFor(added, k, b) <==> OpenFor(s, k, b) || (k == id && b == bookId);
    assert forall k :: !OpenFor(s, k, bookId);
    assert OpenFor(added, id, bookId);
  }

  /** Marking an available book rented without recording a rental breaks the invariant. */
  lemma MarkedWithoutRentalIsInvalid(s: Store, bookId: int)
    requires Valid(s) && bookId in s.books && !s.books[bookId].isRented
    ensures !Valid(s.(books := s.books[bookId := s.books[bookId].(isRented := true)]))
  {
    var t := s.(books := s.books[bookId := s.books[bookId].(isRented := true)]);
    assert !(exists k :: OpenFor(s, k, bookId));
    assert forall k :: OpenFor(t, k, bookId) ==> OpenFor(s, k, bookId);
    assert t.books[bookId].isRented && !(exists k :: OpenFor(t, k, bookId));
    assert !FlagsAgree(t);
  }

  /** RentBook keeps the invariant, except in the two failures thrown after
      the book was saved as rented: an unrepresentable due date, and a
      rental insert rejected because the user does not exist. Those two
      leave a rented book with no open rental; a rejected waiting-list insert
      changes nothing. */
  lemma RentBookKeepsValid(s: Store, userId: int, bookId: int, now: Instant)
    requires Valid(s)
    ensures var r := RentBook(s, userId, bookId, now);
      r.result != Failure(DateOutOfRange(LoanDays)) && r.result != Failure(ForeignKeyViolation) ==> Valid(r.store)
    ensures var r := RentBook(s, userId, bookId, now);
      r.result == Failure(ForeignKeyViolation) ==>
        (Valid(r.store) <==> s.books[bookId].isRented)
    ensures RentBook(s, userId, bookId, now).result == Failure(DateOutOfRange(LoanDays)) ==>
      !Valid(RentBook(s, userId, bookId, now).store)
  {
    if bookId in s.books && s.books[bookId].isRented {
      AddToWaitingListKeepsValid(s, userId, bookId, now);
    } else if bookId in s.books && (AddDays(now, LoanDays).None? || userId !in s.users) {
      MarkedWithoutRentalIsInvalid(s, bookId);
    } else if bookId in s.books {
      var due := AddDays(now, LoanDays).value;
      var added := WithNewRental(s, userId, bookId, now, due);
      WithNewRentalKeepsValid(s, userId, bookId, now, due);
      DeleteWaitingListKeepsValid(added, userId, bookId);
      assert RentBook(s, userId, bookId, now).store == DeleteWaitingList(added, userId, bookId).store;
    }
  }

  /** The corrected RentBook keeps the invariant on every outcome, for any
      user and any clock value. */
  lemma RentBookCheckedKeepsValid(s: Store, userId: int, bookId: int, now: Instant)
    requires Valid(s)
    ensures Valid(RentBookChecked(s, userId, bookId, now).store)
  {
    RentBookKeepsValid(s, userId, bookId, now);
  }

  /** ReturnBook keeps the invariant. */
  lemma ReturnBookKeepsValid(s: Store, rentalId: int, now: Instant, navs: map<int, Nav>)
    requires Valid(s)
    ensures ReturnBook(s, rentalId, now, navs).result != Failure(NullReference)
    ensures Valid(ReturnBook(s, rentalId, now, navs).store)
  {
    if rentalId in s.rentals && s.rentals[rentalId].returnedOn.None? {
      var b := s.rentals[rentalId].bookId;
      var freed := Freed(s, rentalId, now);
      assert freed.books.Keys == s.books.Keys;
      assert OpenFor(s, rentalId, b);
      assert forall k, c :: OpenFor(freed, k, c) <==> OpenFor(s, k, c) && k != rentalId;
      assert forall k :: !OpenFor(freed, k, b);
      assert Valid(freed);
      NotifyNextInLineKeepsValid(freed, b, navs);
    }
  }

  /** ExtendDueDate keeps the invariant; in particular no rental passes MaxExtensions. */
  lemma ExtendDueDateKeepsValid(s: Store, rentalId: int, days: Int32)
    requires Valid(s)
    ensures Valid(ExtendDueDate(s, rentalId, days).store)
  {
    var t := ExtendDueDate(s, rentalId, days).store;
    assert forall k, b :: OpenFor(t, k, b) <==> OpenFor(s, k, b);
  }

  /** The operations a caller can issue, with the clock value and ORM state
      each one sees. `RentChecked` is the corrected rent, RentBookChecked. */
  datatype Op =
    | Rent(userId: int, bookId: int, now: Instant)
    | RentChecked(userId: int, bookId: int, now: Instant)
    | Return(rentalId: int, now: Instant, navs: map<int, Nav>)
    | Extend(rentalId: int, days: Int32)
    | Enqueue(userId: int, bookId: int, now: Instant)
    | Dequeue(userId: int, bookId: int)
    | Notify(bookId: int, navs: map<int, Nav>)

  function Apply(s: Store, op: Op): Step {
    match op
    case Rent(u, b, now) => RentBook(s, u, b, now)
    case RentChecked(u, b, now) => RentBookChecked(s, u, b, now)
    case Return(id, now, navs) => ReturnBook(s, id, now, navs)
    case Extend(id, days) => ExtendDueDate(s, id, days)
    case Enqueue(u, b, now) => AddToWaitingList(s, u, b, now)
    case Dequeue(u, b) => DeleteWaitingList(s, u, b)
    case Notify(b, navs) => NotifyNextInLine(s, b, navs)
  }

  /** The store after issuing `ops` in order; a thrown exception does not stop later calls. */
  function Run(s: Store, ops: seq<Op>): Store
    decreases |ops|
  {
    if |ops| == 0 then s else Run(Apply(s, ops[0]).store, ops[1..])
  }

  /** A rent by a known user whose due date is representable (issued before
      the last two weeks of year 9999); the corrected rent needs no such
      guard. No call adds or removes users. */
  predicate RentFits(op: Op, users: set<int>) {
    op.Rent? ==> AddDays(op.now, LoanDays).Some? && op.userId in users
  }

  /** No call changes the user table. */
  lemma ApplyKeepsUsers(s: Store, op: Op)
    ensures Apply(s, op).store.users == s.users
  {
  }

  /** Any sequence of calls keeps the invariant, so after every one of them
      each book is rented iff exactly one rental of it is open. */
  lemma {:induction false} RunKeepsValid(s: Store, ops: seq<Op>)
    requires Valid(s)
    requires forall i :: 0 <= i < |ops| ==> RentFits(ops[i], s.users)
    ensures Valid(Run(s, ops))
    decreases |ops|
  {
    if |ops| > 0 {
      var op := ops[0];
      match op {
        case Rent(u, b, now) => RentBookKeepsValid(s, u, b, now);
        case RentChecked(u, b, now) => RentBookCheckedKeepsValid(s, u, b, now);
        case Return(id, now, navs) => ReturnBookKeepsValid(s, id, now, navs);
        case Extend(id, days) => ExtendDueDateKeepsValid(s, id, days);
        case Enqueue(u, b, now) => AddToWaitingListKeepsValid(s, u, b, now);
        case Dequeue(u, b) => DeleteWaitingListKeepsValid(s, u, b);
        case Notify(b, navs) => NotifyNextInLineKeepsValid(s, b, navs);
      }
      ApplyKeepsUsers(s, op);
      RunKeepsValid(Apply(s, op).store, ops[1..]);
    }
  }

  /** The ledger form of the invariant after any run: rented iff exactly one open rental. */
  lemma {:induction false} RunRentedIffOneOpen(s: Store, ops: seq<Op>, b: int)
    requires Valid(s)
    requires forall i :: 0 <= i < |ops| ==> RentFits(ops[i], s.users)
    requires b in Run(s, ops).books
    ensures Run(s, ops).books[b].isRented <==> |OpenRentals(Run(s, ops), b)| == 1
    ensures !Run(s, ops).books[b].isRented ==> OpenRentals(Run(s, ops), b) == {}
  {
    RunKeepsValid(s, ops);
    OpenRentalCount(Run(s, ops), b);
  }
}

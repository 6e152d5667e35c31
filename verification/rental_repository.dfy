/** The overdue query of RentalRepository. */
module RentalRepository {
  import opened Common
  import opened Models

  /** The stored flag, or a due date already passed on a rental not yet returned. */
  predicate IsOverdue(r: Rental, now: Instant) {
    r.isOverdue || (r.dueDate < now && r.returnedOn.None?)
  }

  /** GetOverdueRentals: the stored rentals that satisfy the overdue filter at `now`. */
  function GetOverdueRentals(rentals: map<int, Rental>, now: Instant): (o: map<int, Rental>)
    ensures forall id :: id in o <==> id in rentals && IsOverdue(rentals[id], now)
    ensures forall id :: id in o ==> o[id] == rentals[id]
  {
    map id | id in rentals && IsOverdue(rentals[id], now) :: rentals[id]
  }

  /** A rental past its due date and not returned is reported. */
  lemma PastDueOpenIsOverdue(rentals: map<int, Rental>, id: int, now: Instant)
    requires id in rentals && rentals[id].dueDate < now && rentals[id].returnedOn.None?
    ensures id in GetOverdueRentals(rentals, now)
  {
  }

  /** The stored flag alone reports a rental, returned or not, whatever its due date. */
  lemma FlaggedIsOverdue(rentals: map<int, Rental>, id: int, now: Instant)
    requires id in rentals && rentals[id].isOverdue
    ensures id in GetOverdueRentals(rentals, now)
  {
  }

  /** The comparison is strict: a rental due exactly now is not yet overdue. */
  lemma DueNowIsNotOverdue(rentals: map<int, Rental>, id: int, now: Instant)
    requires id in rentals && rentals[id].dueDate == now && !rentals[id].isOverdue
    ensures id !in GetOverdueRentals(rentals, now)
  {
  }

  /** An unflagged rental that has been returned is never reported. */
  lemma ReturnedUnflaggedNotOverdue(rentals: map<int, Rental>, id: int, now: Instant)
    requires id in rentals && rentals[id].returnedOn.Some? && !rentals[id].isOverdue
    ensures id !in GetOverdueRentals(rentals, now)
  {
  }
}

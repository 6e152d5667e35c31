/** Selection and removal of waiting-list entries: the LINQ pipeline
    `Where(...).OrderBy(w => w.RequestedOn).FirstOrDefault()` over the list as stored. */
module WaitingQueue {
  import opened Common
  import opened Models

  /** Which entries a lookup is interested in. */
  datatype Query =
    | ForBook(bookId: int)                  // any requester of the book
    | ForUserBook(userId: int, bookId: int) // one requester of the book

  predicate Matches(w: WaitingEntry, q: Query) {
    match q
    case ForBook(b) => w.bookId == b
    case ForUserBook(u, b) => w.bookId == b && w.userId == u
  }

  predicate NoMatch(ws: seq<WaitingEntry>, q: Query) {
    forall j :: 0 <= j < |ws| ==> !Matches(ws[j], q)
  }

  /** Position `i` holds the first entry that a stable sort by RequestedOn puts
      in front among the matching ones: no matching entry is earlier, and every
      matching entry before it in store order is strictly later. */
  predicate IsEarliest(ws: seq<WaitingEntry>, q: Query, i: int) {
    && 0 <= i < |ws|
    && Matches(ws[i], q)
    && (forall j :: 0 <= j < |ws| && Matches(ws[j], q) ==> ws[i].requestedOn <= ws[j].requestedOn)
    && (forall j :: 0 <= j < i && Matches(ws[j], q) ==> ws[i].requestedOn < ws[j].requestedOn)
  }

  /** The position of the earliest matching entry, if any. */
  function EarliestIndex(ws: seq<WaitingEntry>, q: Query): (r: Option<nat>)
    ensures r.Some? ==> IsEarliest(ws, q, r.value)
    ensures r.None? <==> NoMatch(ws, q)
    decreases |ws|
  {
    if |ws| == 0 then None
    else
      var front := ws[..|ws| - 1];
      var last := ws[|ws| - 1];
      var r := EarliestIndex(front, q);
      assert forall j :: 0 <= j < |front| ==> front[j] == ws[j];
      if Matches(last, q) && (r.None? || last.requestedOn < front[r.value].requestedOn) then
        Some(|ws| - 1)
      else
        r
  }

  /** At most one position is the earliest match: the selection is determined. */
  lemma EarliestIsUnique(ws: seq<WaitingEntry>, q: Query, i: int, k: int)
    requires IsEarliest(ws, q, i) && IsEarliest(ws, q, k)
    ensures i == k
  {
  }

  /** Whenever some entry matches, the selection finds exactly the earliest one. */
  lemma EarliestIndexComplete(ws: seq<WaitingEntry>, q: Query, i: int)
    requires IsEarliest(ws, q, i)
    ensures EarliestIndex(ws, q) == Some(i)
  {
    var r := EarliestIndex(ws, q);
    assert r.Some?;
    EarliestIsUnique(ws, q, r.value, i);
  }

  /** The list with the entry at position `i` deleted. */
  function RemoveAt(ws: seq<WaitingEntry>, i: nat): (r: seq<WaitingEntry>)
    requires i < |ws|
    ensures |r| == |ws| - 1
    ensures forall j :: 0 <= j < i ==> r[j] == ws[j]
    ensures forall j :: i <= j < |r| ==> r[j] == ws[j + 1]
    ensures multiset(r) + multiset{ws[i]} == multiset(ws)
  {
    assert ws == ws[..i] + [ws[i]] + ws[i + 1..];
    ws[..i] + ws[i + 1..]
  }

  /** No two entries share a WaitingListId, the table's key. */
  predicate UniqueIds(ws: seq<WaitingEntry>) {
    forall i, j :: 0 <= i < j < |ws| ==> ws[i].waitingListId != ws[j].waitingListId
  }

  /** `DeleteAsync(id)`: the list without the entries whose key is `id`. */
  function DeleteById(ws: seq<WaitingEntry>, id: int): (r: seq<WaitingEntry>)
    ensures forall j :: 0 <= j < |r| ==> r[j].waitingListId != id
    ensures |r| <= |ws|
    decreases |ws|
  {
    if |ws| == 0 then []
    else (if ws[0].waitingListId == id then [] else [ws[0]]) + DeleteById(ws[1..], id)
  }

  /** Deleting a key keeps exactly the entries with another key. */
  lemma {:induction false} DeleteByIdKeepsOthers(ws: seq<WaitingEntry>, id: int, w: WaitingEntry)
    ensures w in DeleteById(ws, id) <==> w in ws && w.waitingListId != id
    decreases |ws|
  {
    if |ws| > 0 {
      DeleteByIdKeepsOthers(ws[1..], id, w);
      assert ws == [ws[0]] + ws[1..];
    }
  }

  /** Deleting a key no entry carries changes nothing. */
  lemma {:induction false} DeleteByAbsentId(ws: seq<WaitingEntry>, id: int)
    requires forall j :: 0 <= j < |ws| ==> ws[j].waitingListId != id
    ensures DeleteById(ws, id) == ws
    decreases |ws|
  {
    if |ws| > 0 {
      DeleteByAbsentId(ws[1..], id);
      assert ws == [ws[0]] + ws[1..];
    }
  }

  /** Removing a later position commutes with keeping the head. */
  lemma RemoveAtTail(ws: seq<WaitingEntry>, i: nat)
    requires 0 < i < |ws|
    ensures RemoveAt(ws, i) == [ws[0]] + RemoveAt(ws[1..], i - 1)
  {
    assert ws[..i] == [ws[0]] + ws[1..][..i - 1];
    assert ws[i + 1..] == ws[1..][i..];
  }

  /** With unique keys, deleting the key of the entry at `i` deletes exactly
      that position. */
  lemma {:induction false} DeleteByIdIsRemoveAt(ws: seq<WaitingEntry>, i: nat)
    requires i < |ws| && UniqueIds(ws)
    ensures DeleteById(ws, ws[i].waitingListId) == RemoveAt(ws, i)
    decreases |ws|
  {
    var id := ws[i].waitingListId;
    var tail := ws[1..];
    assert forall j :: 0 <= j < |tail| ==> tail[j] == ws[j + 1];
    if i == 0 {
      DeleteByAbsentId(tail, id);
      assert DeleteById(ws, id) == [] + DeleteById(tail, id);
      assert RemoveAt(ws, 0) == tail;
    } else {
      assert UniqueIds(tail);
      DeleteByIdIsRemoveAt(tail, i - 1);
      assert DeleteById(ws, id) == [ws[0]] + DeleteById(tail, id);
      RemoveAtTail(ws, i);
    }
  }
}

/** The title/genre search of BookRepository. */
module BookRepository {
  import opened Common
  import opened Models

  /** `text.Contains(query)`: the query occurs in the text at some offset. */
  predicate Contains(text: string, query: string) {
    exists i | 0 <= i <= |text| - |query| :: query <= text[i..]
  }

  /** The search filter: an empty or missing criterion accepts every book;
      otherwise the title must contain the query and the genre equal it.
      A book without a title or genre fails a criterion on it. */
  predicate SearchMatch(b: Book, title: Option<string>, genre: Option<string>) {
    && (IsNullOrEmpty(title) || (b.title.Some? && Contains(b.title.value, title.value)))
    && (IsNullOrEmpty(genre) || (b.genre.Some? && b.genre.value == genre.value))
  }

  /** SearchBooks: the stored books that satisfy the filter. */
  function SearchBooks(books: map<int, Book>, title: Option<string>, genre: Option<string>): (found: map<int, Book>)
    ensures forall id :: id in found <==> id in books && SearchMatch(books[id], title, genre)
    ensures forall id :: id in found ==> found[id] == books[id]
    ensures !IsNullOrEmpty(title) ==>
      forall id :: id in found ==> found[id].title.Some? && Contains(found[id].title.value, title.value)
    ensures !IsNullOrEmpty(genre) ==>
      forall id :: id in found ==> found[id].genre == genre
  {
    map id | id in books && SearchMatch(books[id], title, genre) :: books[id]
  }

  /** With neither criterion given the search returns the whole catalogue. */
  lemma EmptyCriteriaReturnAll(books: map<int, Book>, title: Option<string>, genre: Option<string>)
    requires IsNullOrEmpty(title) && IsNullOrEmpty(genre)
    ensures SearchBooks(books, title, genre) == books
  {
  }

  /** Whether a book is rented has no bearing on whether it is found. */
  lemma SearchIgnoresRentedFlag(books: map<int, Book>, id: int, flag: bool, title: Option<string>, genre: Option<string>)
    requires id in books
    ensures (id in SearchBooks(books, title, genre))
        <==> (id in SearchBooks(books[id := books[id].(isRented := flag)], title, genre))
  {
  }

  /** Searching by a book's full title finds it, provided the genre
      criterion is absent or is that book's genre. */
  lemma FullTitleIsFound(books: map<int, Book>, id: int, t: string, genre: Option<string>)
    requires id in books && books[id].title == Some(t) && t != ""
    requires IsNullOrEmpty(genre) || books[id].genre == genre
    ensures id in SearchBooks(books, Some(t), genre)
  {
    assert t <= t[0..];
  }
}

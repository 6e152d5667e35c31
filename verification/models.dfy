/** The entities of the rental service and the state of its three stores. */
module Models {
  import opened Common

  /** A catalogue book; its key in the book store is its BookId. */
  datatype Book = Book(
    title: Option<string>,
    author: Option<string>,
    isbn: Option<string>,
    genre: Option<string>,
    isRented: bool)

  /** One checkout of a book by a user; its key in the rental store is its RentalId. */
  datatype Rental = Rental(
    userId: int,
    bookId: int,
    rentedOn: Instant,
    returnedOn: Option<Instant>,
    dueDate: Instant,
    isOverdue: bool,
    extensionCount: int)

  /** A pending request by a user for a book that was rented when asked for. */
  datatype WaitingEntry = WaitingEntry(
    waitingListId: int,
    bookId: int,
    userId: int,
    requestedOn: Instant)

  /** A registered user. */
  datatype User = User(userId: int, name: Option<string>, email: Option<string>)

  /** The `User` and `Book` navigation properties of a waiting-list entry,
      present only when the data layer has loaded them. */
  datatype Nav = Nav(user: User, book: Book)

  /** An "available for reservation" message handed to the e-mail service
      (not the stored Notification entity): the id of the navigated user, the
      recipient the service addresses it to (that user's Name) and the title
      of the navigated book. */
  datatype AvailabilityNotice = AvailabilityNotice(userId: int, recipient: Option<string>, bookTitle: Option<string>)

  /** The persistent state: the keys of the user table (the target of the
      UserId foreign keys), books and rentals keyed by id, the waiting list in
      store order, and the next identity value of the rental and waiting-list tables. */
  datatype Store = Store(
    users: set<int>,
    books: map<int, Book>,
    rentals: map<int, Rental>,
    waiting: seq<WaitingEntry>,
    nextRentalId: int,
    nextWaitingId: int)
}

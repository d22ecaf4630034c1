/** The stored entities the routes read and write. */
module Catalog {

  /** The `state` value of a book that has not been approved yet. */
  const UNAPPROVED: int := 1

  /** The columns of `Book` that the routes look at. */
  datatype Book = Book(id: int, name: string, isbn: string, classifyId: int, state: int)

  /** A user; `createdBooks` is what `user.createBooks()` yields, in the
      order the store gives it. */
  datatype User = User(createdBooks: seq<Book>)

  /** A feedback record: created once, never updated here. */
  datatype Feedback = Feedback(content: string, userId: int)

  predicate IsApproved(b: Book) {
    b.state != UNAPPROVED
  }

  /** A book store keyed by id holds each book under its own id. */
  ghost predicate ConsistentStore(store: map<int, Book>) {
    forall id :: id in store ==> store[id].id == id
  }
}

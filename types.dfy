/** The values the book catalogue's client works with: a book as the
    service returns it, and the outcome of one HTTP call. */
module Types {

  /** A JavaScript value held in a book field: either `null` (an optional
      column the store left empty) or a string. */
  datatype Text = Null | Str(s: string) {
    /** JavaScript truthiness: `null` and `""` are falsy, every other string is truthy. */
    predicate Truthy() {
      Str? && s != ""
    }
  }

  /** One row of the `books` table as the client receives it. The `id` is
      assigned by the store and is the key the client uses for its list. */
  datatype Book = Book(
    id: int,
    title: Text,
    author: Text,
    genre: Text,
    publicationDate: Text,
    description: Text)

  /** A value that may be absent, as the `editingBook` marker (`null` when
      no book is being edited). */
  datatype Option<+T> = None | Some(value: T)

  /** The settled outcome of an HTTP call: the response body, or a
      rejected promise. */
  datatype Response<+T> = Success(data: T) | Failure
}

/** Records shared by the ranking computation and the interval request rules. */
module Records {

  /** A row of the reading_intervals table. */
  datatype ReadingInterval = ReadingInterval(id: int, userId: int, bookId: int, startPage: int, endPage: int)

  /** A row of the books table, restricted to the columns the core reads (is_active == 1 is `isActive`). */
  datatype Book = Book(title: string, isActive: bool)

  /** One row of the query that joins reading_intervals with books: the interval and the book's title. */
  datatype JoinedRow = JoinedRow(interval: ReadingInterval, bookName: string)

  /** One row of a top-five answer: {book_id, book_name, num_of_read_pages}. */
  datatype Ranked = Ranked(bookId: int, bookName: string, numOfReadPages: int)

  /** The shape of interval the page sweep relies on: a positive first page and a last page not below it. */
  predicate WellFormed(r: ReadingInterval)
  {
    1 <= r.startPage <= r.endPage
  }

  /** The book-id-to-title lookup the top-five query joins against. */
  function Titles(books: map<int, Book>): (titles: map<int, string>)
    ensures titles.Keys == books.Keys
    ensures forall b :: b in titles ==> titles[b] == books[b].title
  {
    map b | b in books :: books[b].title
  }
}

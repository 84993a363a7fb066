# Reading-interval recommendations, modelled in Dafny

The application records reading intervals: a user read a book from one page to
another. It recommends the five most-read books, where a book's score is how
many *distinct* pages of it have been read across all intervals. Overlapping
intervals count once.

The model covers three parts:

- The top-five query `ReadingInterval::topFiveReadBooks` (module
  `ReadingIntervalQuery`). Every interval is expanded into its pages, the
  distinct pages are counted per book, the counts are joined with the books'
  titles, ranked by pages descending then book id ascending, and the first
  five are kept. This is the reference definition: a book's score is the size
  of the union of its closed page ranges.
- The controller action `BookController::topFiveBooksV2` (module
  `BookController`). It reads the joined interval/book rows in book-then-start
  order and sweeps them, one row at a time, keeping a per-book frontier (last
  page counted so far) and total. It then applies `array_multisort` and lists
  the first five entries. The sweep and the listing are methods with loops,
  proved against the query. Under the ordering the SQL imposes, the action
  returns exactly the query's answer (`BookController.TopFiveBooksV2`,
  `BookController.V2MatchesQuery`).
- The validation rules of `StoreReadingIntervalRequest` and
  `UpdateReadingIntervalRequest`, with the custom `book_is_active` rule
  (module `ReadingIntervalRequests`). They are modelled as a verdict function
  over the request fields and the database tables. The proofs show that what
  they accept keeps the table free of duplicate tuples and suits the sweep.

Shared records are in `Records`. The ranking order and the sort are in
`Ranking`: an insertion sort on the key (pages, book id). On distinct
books the key is a strict total order, so any correct sort gives the same
result.

## Model

| member | source | states |
|---|---|---|
| Ranking.Precedes | app/Models/ReadingInterval.php:76-77 | the ranking both computations share: more pages first, then the smaller book id (array_multisort on total_pages DESC, book_id ASC at BookController.php:449) |
| Ranking.PrecedesTotal | app/Models/ReadingInterval.php:76-77 | ORDER BY unique_pages_read DESC, book_id ASC is a strict total order on rows of different books: exactly one of two such rows comes first |
| Ranking.Insert | app/Http/Controllers/BookController.php:449 | inserting into the sorted list adds exactly that element and loses none (multiset of the result is the input plus the element) |
| Ranking.Multisort | app/Http/Controllers/BookController.php:449 | array_multisort returns a permutation of its input |
| Ranking.TakeFirst | app/Models/ReadingInterval.php:78 | LIMIT 5, and the counter at BookController.php:455: the first five rows, or all of them when there are fewer; its size is stated by `TopFiveSize` and its ranking by `LeftOutRanksAfter` |
| Ranking.ConsSorted | app/Models/ReadingInterval.php:76-77 | an element ranking before every element of a sorted list can head it and the list stays sorted |
| Ranking.ConsDistinct | app/Http/Controllers/BookController.php:449 | a row about a book no row of a list is about can head it and the rows stay about distinct books |
| Ranking.SortedTail | app/Models/ReadingInterval.php:76-77 | the tail of a sorted list is sorted and its head ranks before every element of the tail |
| Ranking.LeftOutRanksAfter | app/Models/ReadingInterval.php:76-78 | an element of a sorted list that LIMIT 5 drops means five rows were kept, each ranking before it |
| Ranking.InsertSorted | app/Http/Controllers/BookController.php:449 | inserting a new book into a list sorted by pages descending then id ascending keeps it sorted |
| Ranking.MultisortSorted | app/Http/Controllers/BookController.php:449 | sorting rows of distinct books by (total_pages DESC, book_id ASC) yields that strict order |
| Ranking.SortedUnique | app/Models/ReadingInterval.php:76-77 | two strictly sorted lists with the same elements are equal, so the ranking is independent of the order rows are produced in |
| ReadingIntervalQuery.PageRange | app/Models/ReadingInterval.php:55 | generate_series(start_page, end_page) holds exactly the pages from the first to the last, inclusive |
| ReadingIntervalQuery.PageRangeSize | app/Models/ReadingInterval.php:55 | an interval from s to e, with e at least s - 1, expands to e - s + 1 pages |
| ReadingIntervalQuery.BookPages | app/Models/ReadingInterval.php:52-58 | expanded_intervals restricted to one book: the union of generate_series over its intervals; membership is stated by `BookPagesMembership` |
| ReadingIntervalQuery.UniquePagesRead | app/Models/ReadingInterval.php:59-67 | COUNT(DISTINCT page) for one book: the size of its page set |
| ReadingIntervalQuery.GroupedHasInterval | app/Models/ReadingInterval.php:52-66 | a grouped book has an interval |
| ReadingIntervalQuery.GroupedExactlyWhenPagesRead | app/Models/ReadingInterval.php:52-67 | a book is grouped exactly when its COUNT(DISTINCT page) is positive, whatever its intervals |
| ReadingIntervalQuery.BookPagesMembership | app/Models/ReadingInterval.php:52-66 | a page counts for a book exactly when some interval of that book starts at or before it and ends at or after it |
| ReadingIntervalQuery.OrderIndependent | app/Models/ReadingInterval.php:59-67 | COUNT(DISTINCT page) per book depends only on which intervals exist, not on the order of rows |
| ReadingIntervalQuery.DuplicateCountsOnce | app/Models/ReadingInterval.php:62 | an interval submitted twice adds no page a second time |
| ReadingIntervalQuery.Monotone | app/Models/ReadingInterval.php:59-67 | one more interval never lowers any book's page set or count |
| ReadingIntervalQuery.PagesExactlyForBooksWithIntervals | app/Models/ReadingInterval.php:52-67 | with well-formed intervals, a book has an interval exactly when it is grouped, and exactly when its count is positive |
| ReadingIntervalQuery.ReadBookIds | app/Models/ReadingInterval.php:52-66 | GROUP BY book_id over expanded_intervals yields exactly the books that have an interval with start_page <= end_page (so generate_series gives them a row), each once |
| ReadingIntervalQuery.CountRows | app/Models/ReadingInterval.php:68-75 | the joined rows are exactly the grouped books that have a book row, each with its title and distinct-page count; that no book appears twice is stated by `CountRowsDistinct` |
| ReadingIntervalQuery.CountRowsSize | app/Models/ReadingInterval.php:73-75 | the inner join keeps one row per grouped book that has a title |
| ReadingIntervalQuery.CountRowsDistinct | app/Models/ReadingInterval.php:65-75 | grouped ids are distinct, so the joined rows name each book at most once |
| ReadingIntervalQuery.TopFiveReadBooks | app/Models/ReadingInterval.php:50-79 | ReadingInterval::topFiveReadBooks: the count rows of the grouped books joined with their titles, ranked, at most five; its contract is stated by `TopFiveSize`, `TopFiveSorted`, `TopFiveRows` and `TopFiveIsTop` |
| ReadingIntervalQuery.TopFiveSize | app/Models/ReadingInterval.php:78 | the answer holds five rows, or one per rankable book when there are fewer than five |
| ReadingIntervalQuery.TopFiveSorted | app/Models/ReadingInterval.php:76-77 | the answer is strictly ordered by pages read descending, then book id ascending |
| ReadingIntervalQuery.TopFiveRows | app/Models/ReadingInterval.php:68-71 | each row is a grouped book with a title, reported with that title and its distinct-page count, which is positive |
| ReadingIntervalQuery.TopFiveIsTop | app/Models/ReadingInterval.php:76-78 | a rankable book missing from the answer means the answer is full and every row ranks before that book |
| ReadingIntervalQuery.TopFiveCongruent | app/Models/ReadingInterval.php:50-79 | two inputs that agree on which books are grouped and titled, on those titles and on those counts give the same answer |
| ReadingIntervalQuery.TopFiveOrderIndependent | app/Models/ReadingInterval.php:50-79 | listing the same intervals in another order gives the same answer |
| BookController.Projected | app/Http/Controllers/BookController.php:458-462 | each entry is reported as {book_id, book_name, num_of_read_pages = total_pages}, one row per entry in the same order |
| BookController.IntervalsOf | app/Http/Controllers/BookController.php:397-401 | the reading_intervals part of the joined rows, row for row |
| BookController.AppendSameBook | app/Http/Controllers/BookController.php:403-444 | one more interval of a book adds its page range to that book's pages and may raise its frontier to its last page |
| BookController.AppendOtherBook | app/Http/Controllers/BookController.php:403-444 | one more interval leaves every other book's pages and frontier unchanged |
| BookController.AppendBookIds | app/Http/Controllers/BookController.php:404-412 | one more interval adds its book to the books seen, at the end, exactly when it is the book's first interval |
| BookController.IntervalsOfAppend | app/Http/Controllers/BookController.php:403 | reading one more row extends the intervals seen by that row's interval |
| BookController.RowTitlesSpec | app/Http/Controllers/BookController.php:404-411 | the titles kept are for exactly the books with a row, each the title on one of that book's rows |
| BookController.RowTitles | app/Http/Controllers/BookController.php:404-411 | the book_name each entry gets: the name on the book's first row; stated by `RowTitlesSpec` and `RowTitlesAppend` |
| BookController.RowTitlesAppend | app/Http/Controllers/BookController.php:404-411 | a book's title is the one from its first row; later rows do not change it |
| BookController.PagesUpToFrontier | app/Http/Controllers/BookController.php:413 | no page read of a book lies past its frontier (the largest last page) |
| BookController.FrontierAttained | app/Http/Controllers/BookController.php:413 | a positive frontier is the last page of one of the book's intervals |
| BookController.FrontierCovered | app/Http/Controllers/BookController.php:413-429 | when every earlier interval starts no later than s, every page from s up to the frontier is already read |
| BookController.UnionPastFrontier | app/Http/Controllers/BookController.php:439 | adding pages s..e to pages that cover s..f and end at f adds exactly e - f new pages |
| BookController.DisjointIntervalAddsAll | app/Http/Controllers/BookController.php:415-428 | an interval starting and ending past the frontier adds (end + 1) - start pages, and its last page becomes the frontier |
| BookController.OverlappingIntervalAddsTail | app/Http/Controllers/BookController.php:429-443 | an interval that starts inside or at the frontier and does not end before it adds end - frontier pages, and its last page becomes the frontier |
| BookController.ContainedIntervalAddsNothing | app/Http/Controllers/BookController.php:403-444 | an interval that matches neither branch adds no page and leaves the frontier as it was |
| BookController.NoIntervalNoPages | app/Http/Controllers/BookController.php:404-412 | a book first seen starts at frontier 0 and total 0, which are its true values |
| BookController.TracksStep | app/Http/Controllers/BookController.php:403-444 | updating one book's entry to its new true frontier and total keeps every entry exact and the books in order of first row |
| BookController.NamedAsUpdate | app/Http/Controllers/BookController.php:404-411 | keeping a known book's name, or naming a new book from its row, keeps every entry's name equal to its book's title |
| BookController.EarlierStartNoLater | app/Http/Controllers/BookController.php:399-400 | in book-then-start order every earlier row of the same book starts no later |
| BookController.RecordInterval | app/Http/Controllers/BookController.php:404-443 | one turn of the foreach (`Recorded`): only the row's book's entry changes, to the book's largest last page and its count of distinct pages once the row is added, a new book being appended with its row's title |
| BookController.AccumulateStep | app/Http/Controllers/BookController.php:403-444 | one turn of the foreach keeps every entry exact for one more row |
| BookController.AccumulateBooks | app/Http/Controllers/BookController.php:403-444 | after the foreach, every book with a row has exactly one entry, whose total is its count of distinct pages and whose name is its first row's title, listed in order of first row |
| BookController.OrderedStartsAscending | app/Http/Controllers/BookController.php:399-400 | ORDER BY book_id, start_page puts each book's rows in non-decreasing order of first page |
| BookController.EntriesOnePerBook | app/Http/Controllers/BookController.php:449 | after the foreach, re-indexing the per-book array (`EntriesInOrder`) lists every entry exactly once: every book of the array appears, and no book twice |
| BookController.ProjectedCons | app/Http/Controllers/BookController.php:457-463 | listing an entry in front of a list lists it first |
| BookController.InsertCommutes | app/Http/Controllers/BookController.php:449 | sorting an entry into place and then listing is listing and then sorting the row into place |
| BookController.MultisortCommutes | app/Http/Controllers/BookController.php:449-463 | sorting entries by (total_pages DESC, book_id ASC) and then listing equals listing and then sorting the rows by the query's order |
| BookController.CountRowsTitled | app/Models/ReadingInterval.php:68-75 | when every book has a title, the joined count rows are one per book, in the same order |
| BookController.EntriesAreCountRows | app/Http/Controllers/BookController.php:403-449 | the accumulated entries, listed, are the query's count rows for the books with an interval |
| BookController.ListFirstFive | app/Http/Controllers/BookController.php:451-463 | the for loop lists the first five sorted entries, or all of them when there are fewer |
| BookController.TopFiveBooksV2 | app/Http/Controllers/BookController.php:386-467 | on rows in book-then-start order, the action returns exactly the top-five query's answer on the same intervals and titles |
| BookController.JoinedRows | app/Http/Controllers/BookController.php:397-398 | the inner join holds exactly the intervals whose book exists, each with that book's title |
| BookController.SameIntervalsSamePages | app/Models/ReadingInterval.php:52-66 | two interval lists with the same intervals of a book give that book the same pages |
| BookController.JoinedIntervals | app/Http/Controllers/BookController.php:397-398 | the joined rows carry exactly the intervals whose book exists; the books with rows, and the grouped books, are those of the table whose book exists |
| BookController.FilteredBooks | app/Http/Controllers/BookController.php:397-398 | an inner join that keeps exactly the intervals whose book exists keeps exactly the books, with an interval or grouped, that exist |
| BookController.JoinedRowsWellFormed | app/Http/Controllers/BookController.php:397-398 | joining keeps well-formed intervals well-formed |
| BookController.V2MatchesQuery | app/Http/Controllers/BookController.php:397-401 | the query's answer on the joined rows, titled from those rows, equals its answer on the whole reading_intervals table titled from the books table (`Titles`) |
| BookController.FirstIntervalCountsAll | app/Http/Controllers/BookController.php:415-427 | a book's first interval counts all of its pages (40-50 is 11 pages) and sets the frontier to its last page |
| BookController.TwoIntervals | app/Http/Controllers/BookController.php:415-443 | two intervals of one book, in order of first page, count all pages of both when disjoint, the union when overlapping, the first when contained |
| BookController.ExampleDisjoint | app/Http/Controllers/BookController.php:415-427 | 10-20 and 25-30 give 17 pages |
| BookController.ExampleAdjacent | app/Http/Controllers/BookController.php:415-427 | 10-20 and 21-30 give 21 pages |
| BookController.ExampleOverlapping | app/Http/Controllers/BookController.php:429-443 | 10-20 and 15-25 give 16 pages |
| BookController.ExampleContained | app/Http/Controllers/BookController.php:403-444 | 10-20 and 12-18 give 11 pages |
| ReadingIntervalRequests.StoreRules | app/Http/Requests/StoreReadingIntervalRequest.php:23-54 | a store request is "not found" exactly when it names a book that does not exist; it is accepted exactly when all four fields are present, the user exists, the book is active, 1 <= start_page < end_page <= 10000 and no row has the same tuple; a rejection names at least one field, and the fields in error are those whose rules fail (`FieldErrors`) |
| ReadingIntervalRequests.UpdateRules | app/Http/Requests/UpdateReadingIntervalRequest.php:23-53 | an update is never "not found"; it is accepted exactly when the store conditions hold with the book only required to exist and the ignored row's tuple allowed; a rejection names at least one field, those whose rules fail (`FieldErrors`, without book_is_active) |
| ReadingIntervalRequests.AcceptedBounds | app/Http/Requests/StoreReadingIntervalRequest.php:40-52 | an accepted interval has all fields, 1 <= start_page < end_page <= 10000, covers at least two pages and suits the page sweep |
| ReadingIntervalRequests.StoreAcceptedUpdateAccepted | app/Http/Requests/UpdateReadingIntervalRequest.php:26-51 | the update rules are never stricter than the store rules |
| ReadingIntervalRequests.StoreRejectsDuplicate | app/Http/Requests/StoreReadingIntervalRequest.php:26-34 | storing the tuple of an existing row is never accepted; with the book present, user_id is in error |
| ReadingIntervalRequests.StoreRejectsInactiveBook | app/Providers/AppServiceProvider.php:25-31 | a store naming an existing inactive book is rejected on book_id |
| ReadingIntervalRequests.UpdateIgnoresActivity | app/Http/Requests/UpdateReadingIntervalRequest.php:35-38 | an update is judged the same whether its book is active or not |
| ReadingIntervalRequests.TableValidWellFormed | app/Http/Requests/StoreReadingIntervalRequest.php:40-52 | every row of a table kept by the rules suits the page sweep |
| ReadingIntervalRequests.UpdateAcceptsOwnValues | app/Http/Requests/UpdateReadingIntervalRequest.php:26-34 | when the unique rule ignores the row being updated, re-saving that row's own values is accepted |
| ReadingIntervalRequests.UpdateWithoutIdRejectsOwnValues | app/Http/Requests/UpdateReadingIntervalRequest.php:32 | when the ignored id resolves to nothing, re-saving a row's own values is rejected on user_id |
| ReadingIntervalRequests.StoreKeepsTableValid | app/Http/Requests/StoreReadingIntervalRequest.php:26-52 | inserting the row of an accepted store keeps every row in range and every (user, book, start, end) tuple unique |
| ReadingIntervalRequests.UpdateKeepsTableValid | app/Http/Requests/UpdateReadingIntervalRequest.php:26-51 | replacing a row by the values of an update accepted while ignoring that row keeps the table valid |

## Left out

- The rest of the application is not part of this model: CRUD actions, pagination, the user controller, the `IntervalSubmitted` listener and its SMS, and `topFiveBooks` (which only wraps the query in a response). Nor are the HTTP responses (`handleResponse`, status codes); both top-five computations are modelled by the rows they return.
- Database I/O is a parameter. The query is a function of the reading_intervals rows and the book titles. The controller reads the joined rows as an input sequence.
- BookController.TopFiveBooksV2: ORDER BY book_id, start_page is a precondition on the input rows (`OrderedByBookThenStart`), not something the model performs. The proof needs only each book's rows to be ordered by first page, and intervals with 1 <= start_page <= end_page; a table kept by the request rules meets this (`TableValidWellFormed`).
- BookController.RecordInterval: the entry's `start_page` field is left out. The source writes it but never reads it.
- Ranking.Multisort: `array_multisort` is a PHP builtin. It is modelled as an insertion sort on (pages, book id). The proved facts (a permutation, strictly sorted on distinct books) determine its output, because the key is a strict total order on distinct books (`SortedUnique`).
- Integers are unbounded. Page numbers are at most 10000 under the rules, so the PHP and SQL integer widths are not reached.
- Laravel reads form input as strings. The model's fields are `Option<int>`: `None` is an absent or empty field. A present but non-integer value (which fails `integer`, and for end_page `gt`) is not modelled separately. Type juggling in `gt` is not modelled either.
- ReadingIntervalRequests.StoreRules: the error messages and their text, `authorize()` (always true) and `messages()` are left out. Only which fields are in error is modelled.
- ReadingIntervalRequests.UpdateRules: `$this->id` is resolved by the framework from the request. It is a parameter `ignoreId`, and both of its resolutions are modelled (see Findings).
- The id the database gives a stored row is a parameter (`RowOf`). The unique index on the table duplicates the unique rule and is not modelled separately.
- A title missing for a book id: the query and the controller both inner-join with books, so such intervals are dropped rather than reported. The model follows that code.
- The size of the answer is fixed at five (`Ranking.Limit`), as both the LIMIT and the counter in the code fix it.

## Findings

| source | as written | input that shows it | evidently intended | confidence | as-written member | corrected member |
|---|---|---|---|---|---|---|
| app/Http/Requests/UpdateReadingIntervalRequest.php:32 | `ignore($this->id)` reads an `id` field or route parameter. The resource route `intervals/{interval}` names its parameter `interval`, so with no `id` in the body nothing is ignored | PUT /intervals/7 carrying row 7's own user_id, book_id, start_page and end_page | the row being updated is ignored, so re-saving its own values is accepted | medium; not executed | ReadingIntervalRequests.UpdateWithoutIdRejectsOwnValues | ReadingIntervalRequests.UpdateAcceptsOwnValues |

/**
 * The validation rules of the two interval requests:
 * StoreReadingIntervalRequest::rules() (creating an interval) and
 * UpdateReadingIntervalRequest::rules() (replacing one), together with the
 * book_is_active rule they rely on.
 *
 * Each attribute's rules are run in order; a failed `required` stops that
 * attribute, any other failure is recorded and the next rule still runs.
 * book_is_active looks the book up with findOrFail, so a store request
 * naming a book that does not exist ends with "not found" instead of a list
 * of field errors.
 */
module ReadingIntervalRequests {
  import opened Records

  /** The largest page number a request may name (max:10000). */
  const MaxPage := 10000

  datatype Option<T> = None | Some(value: T)

  /** The four request fields; `None` is a field that is absent or empty. */
  datatype IntervalInput = IntervalInput(userId: Option<int>, bookId: Option<int>, startPage: Option<int>, endPage: Option<int>)

  datatype Field = UserId | BookId | StartPage | EndPage

  /** The outcome of validation: accepted, rejected with the fields in error, or 404 from findOrFail. */
  datatype Verdict = Accepted | Rejected(errors: set<Field>) | NotFound

  /** The tables the rules look at: users' ids, books by id, and the reading_intervals rows. */
  datatype Database = Database(users: set<int>, books: map<int, Book>, intervals: seq<ReadingInterval>)

  /** A page number within min:1 and max:10000. */
  predicate InRange(p: int)
  {
    1 <= p <= MaxPage
  }

  /** The row has exactly the given user, book, first and last page. */
  predicate SameTuple(r: ReadingInterval, u: int, b: int, s: int, e: int)
  {
    r.userId == u && r.bookId == b && r.startPage == s && r.endPage == e
  }

  /** Some row other than the ignored one already holds this tuple. */
  predicate Taken(intervals: seq<ReadingInterval>, u: int, b: int, s: int, e: int, ignoreId: Option<int>)
  {
    exists k :: 0 <= k < |intervals| && SameTuple(intervals[k], u, b, s, e) && Some(intervals[k].id) != ignoreId
  }

  /**
   * The unique rule on user_id: the rows with this user_id and the request's
   * book_id, start_page and end_page, the ignored id left aside. A where on
   * an absent field compares with null and matches no row.
   */
  predicate Duplicate(input: IntervalInput, db: Database, ignoreId: Option<int>)
  {
    input.userId.Some? && input.bookId.Some? && input.startPage.Some? && input.endPage.Some? &&
    Taken(db.intervals, input.userId.value, input.bookId.value, input.startPage.value, input.endPage.value, ignoreId)
  }

  /** user_id: required, unique (with the ignored id), exists:users,id. */
  predicate UserIdFails(input: IntervalInput, db: Database, ignoreId: Option<int>)
  {
    match input.userId
    case None => true
    case Some(u) => Duplicate(input, db, ignoreId) || u !in db.users
  }

  /** book_id: required, exists:books,id, and book_is_active on store. */
  predicate BookIdFails(input: IntervalInput, db: Database, checkActive: bool)
  {
    match input.bookId
    case None => true
    case Some(b) => b !in db.books || (checkActive && !db.books[b].isActive)
  }

  /** start_page: required, integer, min:1, max:10000. */
  predicate StartPageFails(input: IntervalInput)
  {
    match input.startPage
    case None => true
    case Some(s) => !InRange(s)
  }

  /**
   * end_page: required, integer, min:1, max:10000, gt:start_page. With no
   * start_page the two values are of different types and gt fails.
   */
  predicate EndPageFails(input: IntervalInput)
  {
    match input.endPage
    case None => true
    case Some(e) => !InRange(e) || input.startPage.None? || e <= input.startPage.value
  }

  /** The fields in error. */
  function FieldErrors(input: IntervalInput, db: Database, ignoreId: Option<int>, checkActive: bool): (errors: set<Field>)
    ensures UserId in errors <==> UserIdFails(input, db, ignoreId)
    ensures BookId in errors <==> BookIdFails(input, db, checkActive)
    ensures StartPage in errors <==> StartPageFails(input)
    ensures EndPage in errors <==> EndPageFails(input)
  {
    (if UserIdFails(input, db, ignoreId) then {UserId} else {}) +
    (if BookIdFails(input, db, checkActive) then {BookId} else {}) +
    (if StartPageFails(input) then {StartPage} else {}) +
    (if EndPageFails(input) then {EndPage} else {})
  }

  /**
   * What a store request must carry to be accepted: all four fields, a
   * known user, an active book, 1 <= start_page < end_page <= 10000, and no
   * row with the same user, book, start and end.
   */
  predicate StoreAllowed(input: IntervalInput, db: Database)
  {
    match (input.userId, input.bookId, input.startPage, input.endPage)
    case (Some(u), Some(b), Some(s), Some(e)) =>
      u in db.users && b in db.books && db.books[b].isActive &&
      1 <= s < e <= MaxPage && !Taken(db.intervals, u, b, s, e, None)
    case _ => false
  }

  /**
   * What an update request must carry to be accepted: as for a store, except
   * that the book need only exist, and a row with the same tuple is allowed
   * when it is the row named by `ignoreId`.
   */
  predicate UpdateAllowed(input: IntervalInput, db: Database, ignoreId: Option<int>)
  {
    match (input.userId, input.bookId, input.startPage, input.endPage)
    case (Some(u), Some(b), Some(s), Some(e)) =>
      u in db.users && b in db.books &&
      1 <= s < e <= MaxPage && !Taken(db.intervals, u, b, s, e, ignoreId)
    case _ => false
  }

  /** StoreReadingIntervalRequest::rules(), with book_is_active from AppServiceProvider::boot. */
  function StoreRules(input: IntervalInput, db: Database): (v: Verdict)
    ensures v == NotFound <==> input.bookId.Some? && input.bookId.value !in db.books
    ensures v == Accepted <==> StoreAllowed(input, db)
    ensures v.Rejected? ==> v.errors != {}
  {
    if input.bookId.Some? && input.bookId.value !in db.books then NotFound
    else
      var errors := FieldErrors(input, db, None, true);
      if errors == {} then Accepted else Rejected(errors)
  }

  /**
   * UpdateReadingIntervalRequest::rules(); `ignoreId` is the id the unique
   * rule is told to ignore (`$this->id`), `None` when it resolves to nothing.
   */
  function UpdateRules(input: IntervalInput, db: Database, ignoreId: Option<int>): (v: Verdict)
    ensures v != NotFound
    ensures v == Accepted <==> UpdateAllowed(input, db, ignoreId)
    ensures v.Rejected? ==> v.errors != {}
  {
    var errors := FieldErrors(input, db, ignoreId, false);
    if errors == {} then Accepted else Rejected(errors)
  }

  /** The request that carries a row's own values. */
  function InputOf(r: ReadingInterval): IntervalInput
  {
    IntervalInput(Some(r.userId), Some(r.bookId), Some(r.startPage), Some(r.endPage))
  }

  /** The row an accepted request writes, under the id the table gives it. */
  function RowOf(input: IntervalInput, id: int): ReadingInterval
    requires input.userId.Some? && input.bookId.Some? && input.startPage.Some? && input.endPage.Some?
  {
    ReadingInterval(id, input.userId.value, input.bookId.value, input.startPage.value, input.endPage.value)
  }

  /** An accepted interval covers at least two pages, all within 1..10000, and suits the page sweep. */
  lemma AcceptedBounds(input: IntervalInput, db: Database, ignoreId: Option<int>, id: int)
    requires StoreRules(input, db) == Accepted || UpdateRules(input, db, ignoreId) == Accepted
    ensures input.userId.Some? && input.bookId.Some? && input.startPage.Some? && input.endPage.Some?
    ensures 1 <= input.startPage.value < input.endPage.value <= MaxPage
    ensures WellFormed(RowOf(input, id))
    ensures input.endPage.value - input.startPage.value + 1 >= 2
  {
  }

  /** A store accepted is an update accepted, whichever row the update ignores. */
  lemma StoreAcceptedUpdateAccepted(input: IntervalInput, db: Database, ignoreId: Option<int>)
    requires StoreRules(input, db) == Accepted
    ensures UpdateRules(input, db, ignoreId) == Accepted
  {
    var u, b, s, e := input.userId.value, input.bookId.value, input.startPage.value, input.endPage.value;
    forall k | 0 <= k < |db.intervals| && Some(db.intervals[k].id) != ignoreId
      ensures !SameTuple(db.intervals[k], u, b, s, e)
    {
      assert !(Some(db.intervals[k].id) != None && SameTuple(db.intervals[k], u, b, s, e));
    }
  }

  /** A store request repeating an existing row's tuple is never accepted; with the book present, user_id is in error. */
  lemma StoreRejectsDuplicate(db: Database, k: nat)
    requires k < |db.intervals|
    ensures StoreRules(InputOf(db.intervals[k]), db) != Accepted
    ensures db.intervals[k].bookId in db.books ==>
      StoreRules(InputOf(db.intervals[k]), db).Rejected? && UserId in StoreRules(InputOf(db.intervals[k]), db).errors
  {
    var r := db.intervals[k];
    assert SameTuple(db.intervals[k], r.userId, r.bookId, r.startPage, r.endPage);
    assert Taken(db.intervals, r.userId, r.bookId, r.startPage, r.endPage, None);
  }

  /** A store request for a book that exists but is not active is rejected on book_id. */
  lemma StoreRejectsInactiveBook(input: IntervalInput, db: Database)
    requires input.bookId.Some? && input.bookId.value in db.books && !db.books[input.bookId.value].isActive
    ensures StoreRules(input, db).Rejected? && BookId in StoreRules(input, db).errors
  {
  }

  /** An update is judged the same whether its book is active or not. */
  lemma UpdateIgnoresActivity(input: IntervalInput, db: Database, ignoreId: Option<int>, b: int, active: bool)
    requires b in db.books
    ensures UpdateRules(input, db.(books := db.books[b := db.books[b].(isActive := active)]), ignoreId) ==
            UpdateRules(input, db, ignoreId)
  {
    var db' := db.(books := db.books[b := db.books[b].(isActive := active)]);
    assert db'.books.Keys == db.books.Keys;
  }

  /**
   * The table as the rules keep it: every row within 1 <= start < end <=
   * 10000, and no two rows with the same user, book, start and end.
   */
  predicate TableValid(intervals: seq<ReadingInterval>)
  {
    && (forall k :: 0 <= k < |intervals| ==> 1 <= intervals[k].startPage < intervals[k].endPage <= MaxPage)
    && (forall i, j :: 0 <= i < j < |intervals| ==>
          !SameTuple(intervals[j], intervals[i].userId, intervals[i].bookId, intervals[i].startPage, intervals[i].endPage))
  }

  /** The id column is the table's primary key. */
  predicate IdsDistinct(intervals: seq<ReadingInterval>)
  {
    forall i, j :: 0 <= i < j < |intervals| ==> intervals[i].id != intervals[j].id
  }

  /** Every row of a valid table suits the page sweep. */
  lemma TableValidWellFormed(intervals: seq<ReadingInterval>)
    requires TableValid(intervals)
    ensures forall k :: 0 <= k < |intervals| ==> WellFormed(intervals[k])
  {
  }

  /** Re-saving a row of a valid table with its own values is accepted when the rule ignores that row's id. */
  lemma UpdateAcceptsOwnValues(db: Database, k: nat)
    requires TableValid(db.intervals)
    requires IdsDistinct(db.intervals)
    requires k < |db.intervals|
    requires db.intervals[k].userId in db.users && db.intervals[k].bookId in db.books
    ensures UpdateRules(InputOf(db.intervals[k]), db, Some(db.intervals[k].id)) == Accepted
  {
    var r := db.intervals[k];
    forall j | 0 <= j < |db.intervals| && Some(db.intervals[j].id) != Some(r.id)
      ensures !SameTuple(db.intervals[j], r.userId, r.bookId, r.startPage, r.endPage)
    {
      if j < k {
        assert !SameTuple(db.intervals[k], db.intervals[j].userId, db.intervals[j].bookId, db.intervals[j].startPage, db.intervals[j].endPage);
      }
    }
  }

  /** When `$this->id` resolves to nothing, re-saving a row's own values is rejected on user_id. */
  lemma UpdateWithoutIdRejectsOwnValues(db: Database, k: nat)
    requires k < |db.intervals|
    ensures UpdateRules(InputOf(db.intervals[k]), db, None).Rejected?
    ensures UserId in UpdateRules(InputOf(db.intervals[k]), db, None).errors
  {
    var r := db.intervals[k];
    assert SameTuple(db.intervals[k], r.userId, r.bookId, r.startPage, r.endPage);
  }

  /** Inserting the row of an accepted store request keeps the table valid. */
  lemma StoreKeepsTableValid(input: IntervalInput, db: Database, id: int)
    requires TableValid(db.intervals)
    requires StoreRules(input, db) == Accepted
    ensures TableValid(db.intervals + [RowOf(input, id)])
  {
    var rows := db.intervals + [RowOf(input, id)];
    var u, b, s, e := input.userId.value, input.bookId.value, input.startPage.value, input.endPage.value;
    forall i, j | 0 <= i < j < |rows|
      ensures !SameTuple(rows[j], rows[i].userId, rows[i].bookId, rows[i].startPage, rows[i].endPage)
    {
      if j == |db.intervals| {
        assert !(Some(db.intervals[i].id) != None && SameTuple(db.intervals[i], u, b, s, e));
      }
    }
  }

  /** Replacing row `k` by the values of an update accepted while ignoring that row's id keeps the table valid. */
  lemma UpdateKeepsTableValid(input: IntervalInput, db: Database, k: nat)
    requires TableValid(db.intervals) && IdsDistinct(db.intervals)
    requires k < |db.intervals|
    requires UpdateRules(input, db, Some(db.intervals[k].id)) == Accepted
    ensures TableValid(db.intervals[k := RowOf(input, db.intervals[k].id)])
  {
    var id := db.intervals[k].id;
    var rows := db.intervals[k := RowOf(input, id)];
    var u, b, s, e := input.userId.value, input.bookId.value, input.startPage.value, input.endPage.value;
    forall i, j | 0 <= i < j < |rows|
      ensures !SameTuple(rows[j], rows[i].userId, rows[i].bookId, rows[i].startPage, rows[i].endPage)
    {
      if i == k {
        assert !(Some(db.intervals[j].id) != Some(id) && SameTuple(db.intervals[j], u, b, s, e));
      } else if j == k {
        assert !(Some(db.intervals[i].id) != Some(id) && SameTuple(db.intervals[i], u, b, s, e));
      }
    }
  }
}

/**
 * BookController::topFiveBooksV2: one pass over the joined interval rows that
 * keeps, per book, a frontier (the last page known to be read) and a running
 * total of distinct pages; then the per-book entries are sorted by total
 * descending and book id ascending, and the first five are listed.
 *
 * The pass is proved to compute, for every book, exactly the count of distinct
 * pages that the top-five query of ReadingIntervalQuery defines, so the
 * controller's answer is the query's answer.
 */
module BookController {
  import opened Records
  import opened Ranking
  import opened ReadingIntervalQuery

  /**
   * One entry of the per-book array: the frontier (end_page), the running
   * total (total_pages), the title and the id. The entry's start_page is
   * written but never read, so it is not kept.
   */
  datatype BookEntry = BookEntry(endPage: int, totalPages: int, bookName: string, bookId: int)

  function EntryRank(e: BookEntry): Rank
  {
    Rank(e.totalPages, e.bookId)
  }

  function ToRanked(e: BookEntry): Ranked
  {
    Ranked(e.bookId, e.bookName, e.totalPages)
  }

  /** The entries as result rows, {book_id, book_name, num_of_read_pages}, in the same order. */
  function Projected(s: seq<BookEntry>): (rows: seq<Ranked>)
    ensures |rows| == |s|
    ensures forall k :: 0 <= k < |s| ==> rows[k] == ToRanked(s[k])
  {
    if |s| == 0 then [] else [ToRanked(s[0])] + Projected(s[1..])
  }

  /** The reading_intervals part of the joined rows. */
  function IntervalsOf(rows: seq<JoinedRow>): (iv: seq<ReadingInterval>)
    ensures |iv| == |rows|
    ensures forall k :: 0 <= k < |rows| ==> iv[k] == rows[k].interval
  {
    if |rows| == 0 then [] else IntervalsOf(rows[..|rows| - 1]) + [rows[|rows| - 1].interval]
  }

  /** The largest last page among book `b`'s intervals; 0 when it has none. */
  function MaxEnd(iv: seq<ReadingInterval>, b: int): int
  {
    if |iv| == 0 then 0
    else
      var f := MaxEnd(iv[..|iv| - 1], b);
      var last := iv[|iv| - 1];
      if last.bookId == b && last.endPage > f then last.endPage else f
  }

  /** Within each book, the rows come in non-decreasing order of first page. */
  predicate StartsAscendingPerBook(rows: seq<JoinedRow>)
  {
    forall i, j :: 0 <= i < j < |rows| && rows[i].interval.bookId == rows[j].interval.bookId ==>
      rows[i].interval.startPage <= rows[j].interval.startPage
  }

  /** What one more interval does to the book it belongs to. */
  lemma AppendSameBook(iv: seq<ReadingInterval>, x: ReadingInterval)
    ensures BookPages(iv + [x], x.bookId) == BookPages(iv, x.bookId) + PageRange(x.startPage, x.endPage)
    ensures MaxEnd(iv + [x], x.bookId) == if x.endPage > MaxEnd(iv, x.bookId) then x.endPage else MaxEnd(iv, x.bookId)
  {
    assert (iv + [x])[..|iv|] == iv;
  }

  /** One more interval leaves every other book's pages and frontier as they were. */
  lemma AppendOtherBook(iv: seq<ReadingInterval>, x: ReadingInterval, c: int)
    requires c != x.bookId
    ensures BookPages(iv + [x], c) == BookPages(iv, c) && MaxEnd(iv + [x], c) == MaxEnd(iv, c)
  {
    assert (iv + [x])[..|iv|] == iv;
  }

  /**
   * One more interval adds its book to the books that have intervals and,
   * when it is well-formed, to the grouped books, at the end if it is new.
   */
  lemma AppendBookIds(iv: seq<ReadingInterval>, x: ReadingInterval)
    ensures forall c :: HasInterval(iv + [x], c) <==> HasInterval(iv, c) || c == x.bookId
    ensures WellFormed(x) ==>
      ReadBookIds(iv + [x]) == if x.bookId in ReadBookIds(iv) then ReadBookIds(iv) else ReadBookIds(iv) + [x.bookId]
  {
    assert (iv + [x])[..|iv|] == iv;
    forall c
      ensures HasInterval(iv + [x], c) <==> HasInterval(iv, c) || c == x.bookId
    {
      if HasInterval(iv, c) {
        var k :| 0 <= k < |iv| && iv[k].bookId == c;
        assert (iv + [x])[k] == iv[k];
      }
      if HasInterval(iv + [x], c) && c != x.bookId {
        var k :| 0 <= k < |iv + [x]| && (iv + [x])[k].bookId == c;
        assert iv[k] == (iv + [x])[k];
      }
      if c == x.bookId {
        assert (iv + [x])[|iv|] == x;
      }
    }
  }

  lemma IntervalsOfAppend(rows: seq<JoinedRow>, i: nat)
    requires i < |rows|
    ensures IntervalsOf(rows[..i + 1]) == IntervalsOf(rows[..i]) + [rows[i].interval]
  {
    assert rows[..i + 1][..i] == rows[..i];
  }

  /** The title recorded for each book: the one on the book's first row. */
  function RowTitles(rows: seq<JoinedRow>): map<int, string>
  {
    if |rows| == 0 then map[]
    else
      var titles, last := RowTitles(rows[..|rows| - 1]), rows[|rows| - 1];
      if last.interval.bookId in titles then titles else titles[last.interval.bookId := last.bookName]
  }

  /** Every book with a row has a recorded title, and it is the title on one of that book's rows. */
  lemma {:induction false} RowTitlesSpec(rows: seq<JoinedRow>)
    ensures forall b :: b in RowTitles(rows) <==> HasInterval(IntervalsOf(rows), b)
    ensures forall b :: b in RowTitles(rows) ==>
      exists k :: 0 <= k < |rows| && rows[k].interval.bookId == b && rows[k].bookName == RowTitles(rows)[b]
  {
    if |rows| > 0 {
      var init, last := rows[..|rows| - 1], rows[|rows| - 1];
      RowTitlesSpec(init);
      AppendBookIds(IntervalsOf(init), last.interval);
      forall b | b in RowTitles(rows)
        ensures exists k :: 0 <= k < |rows| && rows[k].interval.bookId == b && rows[k].bookName == RowTitles(rows)[b]
      {
        if b in RowTitles(init) {
          var k :| 0 <= k < |init| && init[k].interval.bookId == b && init[k].bookName == RowTitles(init)[b];
          assert rows[k] == init[k];
        } else {
          assert rows[|rows| - 1] == last;
        }
      }
    }
  }

  lemma RowTitlesAppend(rows: seq<JoinedRow>, i: nat)
    requires i < |rows|
    ensures RowTitles(rows[..i + 1]) ==
      var titles := RowTitles(rows[..i]);
      if rows[i].interval.bookId in titles then titles else titles[rows[i].interval.bookId := rows[i].bookName]
  {
    assert rows[..i + 1][..i] == rows[..i];
  }

  /** Every page of the book is at most its frontier. */
  lemma {:induction false} PagesUpToFrontier(iv: seq<ReadingInterval>, b: int)
    ensures forall p :: p in BookPages(iv, b) ==> p <= MaxEnd(iv, b)
  {
    if |iv| > 0 {
      PagesUpToFrontier(iv[..|iv| - 1], b);
    }
  }

  /** A positive frontier is the last page of one of the book's intervals. */
  lemma {:induction false} FrontierAttained(iv: seq<ReadingInterval>, b: int)
    requires MaxEnd(iv, b) > 0
    ensures exists k :: 0 <= k < |iv| && iv[k].bookId == b && iv[k].endPage == MaxEnd(iv, b)
  {
    var init := iv[..|iv| - 1];
    var last := iv[|iv| - 1];
    if !(last.bookId == b && last.endPage > MaxEnd(init, b)) {
      FrontierAttained(init, b);
      var k :| 0 <= k < |init| && init[k].bookId == b && init[k].endPage == MaxEnd(init, b);
      assert iv[k] == init[k];
    }
  }

  /** Pages from a start no later than the frontier up to the frontier are all read already. */
  lemma FrontierCovered(iv: seq<ReadingInterval>, b: int, s: int)
    requires 1 <= s <= MaxEnd(iv, b)
    requires forall k :: 0 <= k < |iv| && iv[k].bookId == b ==> iv[k].startPage <= s
    ensures PageRange(s, MaxEnd(iv, b)) <= BookPages(iv, b)
  {
    FrontierAttained(iv, b);
    var k :| 0 <= k < |iv| && iv[k].bookId == b && iv[k].endPage == MaxEnd(iv, b);
    forall p | p in PageRange(s, MaxEnd(iv, b))
      ensures p in BookPages(iv, b)
    {
      BookPagesMembership(iv, b, p);
    }
  }

  /** Set arithmetic behind the overlapping case: only the pages past the frontier are new. */
  lemma UnionPastFrontier(pages: set<int>, s: int, f: int, e: int)
    requires s <= f <= e
    requires forall p :: p in pages ==> p <= f
    requires PageRange(s, f) <= pages
    ensures |pages + PageRange(s, e)| == |pages| + e - f
  {
    var tail := PageRange(f + 1, e);
    PageRangeSize(f + 1, e);
    forall p | p in PageRange(s, e)
      ensures p in pages + tail
    {
      if p <= f {
        assert p in PageRange(s, f);
      }
    }
    assert pages + PageRange(s, e) == pages + tail;
    assert pages !! tail;
  }

  /**
   * An interval that starts past the frontier adds all of its pages,
   * e - s + 1, and moves the frontier to its last page.
   */
  lemma DisjointIntervalAddsAll(iv: seq<ReadingInterval>, x: ReadingInterval)
    requires WellFormed(x)
    requires x.startPage > MaxEnd(iv, x.bookId) && x.endPage > MaxEnd(iv, x.bookId)
    ensures UniquePagesRead(iv + [x], x.bookId) == UniquePagesRead(iv, x.bookId) + (x.endPage + 1) - x.startPage
    ensures MaxEnd(iv + [x], x.bookId) == x.endPage
  {
    var b := x.bookId;
    AppendSameBook(iv, x);
    PagesUpToFrontier(iv, b);
    PageRangeSize(x.startPage, x.endPage);
    assert BookPages(iv, b) !! PageRange(x.startPage, x.endPage);
  }

  /**
   * With the book's earlier intervals starting no later than this one, an
   * interval that starts at or before the frontier and ends past it adds
   * exactly the pages beyond the frontier, e - frontier, and moves the
   * frontier to its last page. The source's test is
   * `(s < frontier && e > frontier) || s == frontier`.
   */
  lemma OverlappingIntervalAddsTail(iv: seq<ReadingInterval>, x: ReadingInterval)
    requires WellFormed(x)
    requires forall k :: 0 <= k < |iv| && iv[k].bookId == x.bookId ==> iv[k].startPage <= x.startPage
    requires !(x.startPage > MaxEnd(iv, x.bookId) && x.endPage > MaxEnd(iv, x.bookId))
    requires (x.startPage < MaxEnd(iv, x.bookId) && x.endPage > MaxEnd(iv, x.bookId)) || x.startPage == MaxEnd(iv, x.bookId)
    ensures UniquePagesRead(iv + [x], x.bookId) == UniquePagesRead(iv, x.bookId) + x.endPage - MaxEnd(iv, x.bookId)
    ensures MaxEnd(iv + [x], x.bookId) == x.endPage
  {
    var b := x.bookId;
    AppendSameBook(iv, x);
    PagesUpToFrontier(iv, b);
    FrontierCovered(iv, b, x.startPage);
    UnionPastFrontier(BookPages(iv, b), x.startPage, MaxEnd(iv, b), x.endPage);
  }

  /**
   * With the book's earlier intervals starting no later than this one, an
   * interval that falls in neither case above lies within pages already read:
   * neither the total nor the frontier changes.
   */
  lemma ContainedIntervalAddsNothing(iv: seq<ReadingInterval>, x: ReadingInterval)
    requires WellFormed(x)
    requires forall k :: 0 <= k < |iv| && iv[k].bookId == x.bookId ==> iv[k].startPage <= x.startPage
    requires !(x.startPage > MaxEnd(iv, x.bookId) && x.endPage > MaxEnd(iv, x.bookId))
    requires !((x.startPage < MaxEnd(iv, x.bookId) && x.endPage > MaxEnd(iv, x.bookId)) || x.startPage == MaxEnd(iv, x.bookId))
    ensures BookPages(iv + [x], x.bookId) == BookPages(iv, x.bookId)
    ensures MaxEnd(iv + [x], x.bookId) == MaxEnd(iv, x.bookId)
  {
    var b := x.bookId;
    AppendSameBook(iv, x);
    FrontierCovered(iv, b, x.startPage);
    forall p | p in PageRange(x.startPage, x.endPage)
      ensures p in PageRange(x.startPage, MaxEnd(iv, b))
    {
    }
  }

  /** A book that has no interval yet has no pages and frontier 0: its fresh entry (0, 0) is exact. */
  lemma {:induction false} NoIntervalNoPages(iv: seq<ReadingInterval>, b: int)
    requires !HasInterval(iv, b)
    ensures BookPages(iv, b) == {} && MaxEnd(iv, b) == 0
  {
    if |iv| > 0 {
      var init := iv[..|iv| - 1];
      var last := iv[|iv| - 1];
      assert iv == init + [last];
      AppendBookIds(init, last);
      AppendOtherBook(init, last, b);
      NoIntervalNoPages(init, b);
    }
  }

  /**
   * What the per-book array holds after the intervals `iv`: the books with an
   * interval, in order of first interval, each with its frontier, its count of
   * distinct pages and its id.
   */
  ghost predicate Tracks(order: seq<int>, list: map<int, BookEntry>, iv: seq<ReadingInterval>)
  {
    && order == ReadBookIds(iv)
    && (forall b :: b in list <==> HasInterval(iv, b))
    && (forall b :: b in list ==>
          list[b].endPage == MaxEnd(iv, b) && list[b].totalPages == UniquePagesRead(iv, b) && list[b].bookId == b)
  }

  /** The titles in the per-book array are those of `titles`, book by book. */
  ghost predicate NamedAs(list: map<int, BookEntry>, titles: map<int, string>)
  {
    && list.Keys == titles.Keys
    && (forall b :: b in list ==> list[b].bookName == titles[b])
  }

  /** One more interval changes the summary of its own book only. */
  lemma TracksStep(iv: seq<ReadingInterval>, x: ReadingInterval, order: seq<int>, list: map<int, BookEntry>, entry: BookEntry)
    requires WellFormed(x)
    requires HasInterval(iv, x.bookId) ==> Grouped(iv, x.bookId)
    requires Tracks(order, list, iv)
    requires entry.endPage == MaxEnd(iv + [x], x.bookId) && entry.totalPages == UniquePagesRead(iv + [x], x.bookId)
    requires entry.bookId == x.bookId
    ensures Tracks(if x.bookId in list then order else order + [x.bookId], list[x.bookId := entry], iv + [x])
  {
    AppendBookIds(iv, x);
    if Grouped(iv, x.bookId) {
      GroupedHasInterval(iv, x.bookId);
    }
    forall c | c in list && c != x.bookId
      ensures list[c].endPage == MaxEnd(iv + [x], c) && list[c].totalPages == UniquePagesRead(iv + [x], c)
    {
      AppendOtherBook(iv, x, c);
    }
  }

  /** Naming one more book, or keeping a known book's title, keeps the titles in step. */
  lemma NamedAsUpdate(list: map<int, BookEntry>, titles: map<int, string>, b: int, entry: BookEntry, name: string)
    requires NamedAs(list, titles)
    requires entry.bookName == if b in list then list[b].bookName else name
    ensures NamedAs(list[b := entry], if b in titles then titles else titles[b := name])
  {
  }

  /** Within rows sorted per book, every interval before row `i` of that row's book starts no later. */
  lemma EarlierStartNoLater(rows: seq<JoinedRow>, i: nat)
    requires i < |rows|
    requires StartsAscendingPerBook(rows)
    ensures forall k :: 0 <= k < |IntervalsOf(rows[..i])| && IntervalsOf(rows[..i])[k].bookId == rows[i].interval.bookId ==>
      IntervalsOf(rows[..i])[k].startPage <= rows[i].interval.startPage
  {
  }

  /**
   * What recording one row does to the order and the per-book array: a new
   * book is appended to the order, and only that row's book's entry changes,
   * to the frontier, total and title it has once the row's interval is added.
   */
  ghost predicate Recorded(order: seq<int>, list: map<int, BookEntry>, order': seq<int>, list': map<int, BookEntry>,
                           result: JoinedRow, done: seq<ReadingInterval>)
  {
    var b := result.interval.bookId;
    && order' == (if b in list then order else order + [b])
    && b in list'
    && list' == list[b := list'[b]]
    && list'[b].endPage == MaxEnd(done + [result.interval], b)
    && list'[b].totalPages == UniquePagesRead(done + [result.interval], b)
    && list'[b].bookId == b
    && list'[b].bookName == (if b in list then list[b].bookName else result.bookName)
  }

  /**
   * The body of the foreach: the row's book gets a fresh entry (0, 0) if it
   * has none, then the interval is compared with the book's frontier. With
   * the book's entry exact for the intervals seen so far, and those intervals
   * starting no later than this one, the entry afterwards holds the frontier
   * and the count of distinct pages with this interval added; a new book is
   * appended to the order, and no other entry changes.
   */
  method RecordInterval(order: seq<int>, list: map<int, BookEntry>, result: JoinedRow, ghost done: seq<ReadingInterval>)
    returns (order': seq<int>, list': map<int, BookEntry>)
    requires WellFormed(result.interval)
    requires forall k :: 0 <= k < |done| && done[k].bookId == result.interval.bookId ==>
      done[k].startPage <= result.interval.startPage
    requires result.interval.bookId in list ==>
      list[result.interval.bookId].endPage == MaxEnd(done, result.interval.bookId) &&
      list[result.interval.bookId].totalPages == UniquePagesRead(done, result.interval.bookId) &&
      list[result.interval.bookId].bookId == result.interval.bookId
    requires result.interval.bookId !in list ==> !HasInterval(done, result.interval.bookId)
    ensures Recorded(order, list, order', list', result, done)
  {
    order', list' := order, list;
    var bookId := result.interval.bookId;
    if bookId !in list' {
      NoIntervalNoPages(done, bookId);
      list' := list'[bookId := BookEntry(0, 0, result.bookName, bookId)];
      order' := order' + [bookId];
    }
    var currentEndPage := list'[bookId].endPage;
    var currentTotalPages := list'[bookId].totalPages;
    var s, e := result.interval.startPage, result.interval.endPage;
    if s > currentEndPage && e > currentEndPage {
      DisjointIntervalAddsAll(done, result.interval);
      currentTotalPages := currentTotalPages + (e + 1) - s;
      list' := list'[bookId := list'[bookId].(endPage := e, totalPages := currentTotalPages)];
    } else if (s < currentEndPage && e > currentEndPage) || s == currentEndPage {
      OverlappingIntervalAddsTail(done, result.interval);
      currentTotalPages := currentTotalPages + e - currentEndPage;
      list' := list'[bookId := list'[bookId].(endPage := e, totalPages := currentTotalPages)];
    } else {
      ContainedIntervalAddsNothing(done, result.interval);
    }
  }

  /** One turn of the foreach keeps the books tracked and named for one more row. */
  lemma AccumulateStep(results: seq<JoinedRow>, i: nat, order: seq<int>, list: map<int, BookEntry>,
                       order': seq<int>, list': map<int, BookEntry>)
    requires i < |results|
    requires forall k :: 0 <= k < |results| ==> WellFormed(results[k].interval)
    requires Tracks(order, list, IntervalsOf(results[..i]))
    requires NamedAs(list, RowTitles(results[..i]))
    requires Recorded(order, list, order', list', results[i], IntervalsOf(results[..i]))
    ensures Tracks(order', list', IntervalsOf(results[..i + 1]))
    ensures NamedAs(list', RowTitles(results[..i + 1]))
  {
    var b := results[i].interval.bookId;
    forall k | 0 <= k < |IntervalsOf(results[..i])|
      ensures WellFormed(IntervalsOf(results[..i])[k])
    {
      assert IntervalsOf(results[..i])[k] == results[k].interval;
    }
    PagesExactlyForBooksWithIntervals(IntervalsOf(results[..i]), b);
    TracksStep(IntervalsOf(results[..i]), results[i].interval, order, list, list'[b]);
    IntervalsOfAppend(results, i);
    RowTitlesAppend(results, i);
    NamedAsUpdate(list, RowTitles(results[..i]), b, list'[b], results[i].bookName);
  }

  /**
   * The foreach over the joined rows. With each book's rows in non-decreasing
   * order of first page, every book with a row gets exactly one entry, whose
   * frontier is the book's largest last page, whose total is the book's count
   * of distinct pages and whose title is the one on its first row; the books
   * are listed in order of first row.
   */
  method AccumulateBooks(results: seq<JoinedRow>) returns (order: seq<int>, list: map<int, BookEntry>)
    requires forall k :: 0 <= k < |results| ==> WellFormed(results[k].interval)
    requires StartsAscendingPerBook(results)
    ensures Tracks(order, list, IntervalsOf(results))
    ensures NamedAs(list, RowTitles(results))
  {
    order, list := [], map[];
    var i := 0;
    while i < |results|
      invariant 0 <= i <= |results|
      invariant Tracks(order, list, IntervalsOf(results[..i]))
      invariant NamedAs(list, RowTitles(results[..i]))
    {
      ghost var done, before, orderBefore := IntervalsOf(results[..i]), list, order;
      EarlierStartNoLater(results, i);
      order, list := RecordInterval(order, list, results[i], done);
      AccumulateStep(results, i, orderBefore, before, order, list);
      i := i + 1;
    }
    assert results[..|results|] == results;
  }

  /** ORDER BY book_id ASC, start_page ASC: the order the joined rows are read in. */
  predicate OrderedByBookThenStart(rows: seq<JoinedRow>)
  {
    forall i, j :: 0 <= i < j < |rows| ==>
      rows[i].interval.bookId < rows[j].interval.bookId ||
      (rows[i].interval.bookId == rows[j].interval.bookId && rows[i].interval.startPage <= rows[j].interval.startPage)
  }

  lemma OrderedStartsAscending(rows: seq<JoinedRow>)
    requires OrderedByBookThenStart(rows)
    ensures StartsAscendingPerBook(rows)
  {
  }

  /** The per-book array re-indexed 0, 1, ... in insertion order, as array_multisort re-indexes it. */
  function EntriesInOrder(order: seq<int>, list: map<int, BookEntry>): (entries: seq<BookEntry>)
    requires forall k :: 0 <= k < |order| ==> order[k] in list
    ensures |entries| == |order|
    ensures forall k :: 0 <= k < |order| ==> entries[k] == list[order[k]]
  {
    seq(|order|, k requires 0 <= k < |order| => list[order[k]])
  }

  /**
   * Re-indexing the per-book array by `order` lists every entry, each once:
   * one entry per book that has an interval, no two for the same book.
   */
  lemma EntriesOnePerBook(order: seq<int>, list: map<int, BookEntry>, iv: seq<ReadingInterval>)
    requires forall k :: 0 <= k < |iv| ==> WellFormed(iv[k])
    requires Tracks(order, list, iv)
    ensures forall b :: b in list <==> b in order
    ensures forall k :: 0 <= k < |order| ==> order[k] in list
    ensures DistinctIds(EntriesInOrder(order, list), EntryRank)
  {
    forall b
      ensures b in list <==> b in order
    {
      PagesExactlyForBooksWithIntervals(iv, b);
    }
    var entries := EntriesInOrder(order, list);
    forall i, j | 0 <= i < j < |entries|
      ensures EntryRank(entries[i]).bookId != EntryRank(entries[j]).bookId
    {
      assert entries[i].bookId == order[i] && entries[j].bookId == order[j];
    }
  }

  lemma ProjectedCons(x: BookEntry, s: seq<BookEntry>)
    ensures Projected([x] + s) == [ToRanked(x)] + Projected(s)
  {
  }

  /** Sorting the entries and then listing them is listing them and then sorting the rows. */
  lemma {:induction false} InsertCommutes(x: BookEntry, s: seq<BookEntry>)
    ensures Projected(Insert(x, s, EntryRank)) == Insert(ToRanked(x), Projected(s), RankOf)
  {
    if |s| > 0 && !Precedes(EntryRank(x), EntryRank(s[0])) {
      InsertCommutes(x, s[1..]);
      ProjectedCons(s[0], Insert(x, s[1..], EntryRank));
      assert Projected(s)[1..] == Projected(s[1..]);
    } else if |s| > 0 {
      ProjectedCons(x, s);
    }
  }

  lemma {:induction false} MultisortCommutes(s: seq<BookEntry>)
    ensures Projected(Multisort(s, EntryRank)) == Multisort(Projected(s), RankOf)
  {
    if |s| > 0 {
      MultisortCommutes(s[1..]);
      InsertCommutes(s[0], Multisort(s[1..], EntryRank));
      assert Projected(s)[1..] == Projected(s[1..]);
    }
  }

  /** When every listed book has a title, the count rows are one per book, in the same order. */
  lemma {:induction false} CountRowsTitled(ids: seq<int>, iv: seq<ReadingInterval>, titles: map<int, string>)
    requires forall k :: 0 <= k < |ids| ==> ids[k] in titles
    ensures |CountRows(ids, iv, titles)| == |ids|
    ensures forall k :: 0 <= k < |ids| ==>
      CountRows(ids, iv, titles)[k] == Ranked(ids[k], titles[ids[k]], UniquePagesRead(iv, ids[k]))
  {
    if |ids| > 0 {
      var rest := ids[1..];
      assert forall k :: 0 <= k < |rest| ==> rest[k] == ids[k + 1];
      CountRowsTitled(rest, iv, titles);
      var row := Ranked(ids[0], titles[ids[0]], UniquePagesRead(iv, ids[0]));
      var rows := CountRows(ids, iv, titles);
      assert rows == [row] + CountRows(rest, iv, titles);
      forall k | 0 < k < |ids|
        ensures rows[k] == Ranked(ids[k], titles[ids[k]], UniquePagesRead(iv, ids[k]))
      {
        assert rows[k] == CountRows(rest, iv, titles)[k - 1];
      }
    }
  }

  /**
   * The entries, listed as result rows, are the query's count rows for the
   * books with an interval, titled from the joined rows.
   */
  lemma EntriesAreCountRows(iv: seq<ReadingInterval>, titles: map<int, string>, order: seq<int>, list: map<int, BookEntry>)
    requires Tracks(order, list, iv)
    requires NamedAs(list, titles)
    ensures forall k :: 0 <= k < |order| ==> order[k] in list
    ensures Projected(EntriesInOrder(order, list)) == CountRows(ReadBookIds(iv), iv, titles)
  {
    forall k | 0 <= k < |order|
      ensures order[k] in list
    {
      assert order[k] in ReadBookIds(iv);
      GroupedHasInterval(iv, order[k]);
    }
    CountRowsTitled(order, iv, titles);
    var listed, counted := Projected(EntriesInOrder(order, list)), CountRows(order, iv, titles);
    forall k | 0 <= k < |order|
      ensures listed[k] == counted[k]
    {
      assert listed[k] == ToRanked(list[order[k]]);
    }
  }

  /**
   * The for loop after the sort: the first `counter` entries, `counter` being
   * five or the number of entries when there are fewer, each listed as
   * {book_id, book_name, num_of_read_pages}.
   */
  method ListFirstFive(sorted: seq<BookEntry>) returns (top: seq<Ranked>)
    ensures top == TakeFirst(Projected(sorted))
  {
    ghost var rows := Projected(sorted);
    var counter := if |sorted| > Limit then Limit else |sorted|;
    top := [];
    var i := 0;
    while i < counter
      invariant 0 <= i <= counter
      invariant top == rows[..i]
    {
      assert rows[..i + 1] == rows[..i] + [rows[i]];
      top := top + [Ranked(sorted[i].bookId, sorted[i].bookName, sorted[i].totalPages)];
      i := i + 1;
    }
    assert rows[..counter] == TakeFirst(rows);
  }

  /**
   * BookController::topFiveBooksV2 on the joined rows, read in book-then-start
   * order: the sweep, array_multisort by total pages descending and book id
   * ascending, then the first five entries. The answer is the top-five
   * query's answer on the same intervals and titles.
   */
  method TopFiveBooksV2(results: seq<JoinedRow>) returns (top: seq<Ranked>)
    requires forall k :: 0 <= k < |results| ==> WellFormed(results[k].interval)
    requires OrderedByBookThenStart(results)
    ensures top == TopFiveReadBooks(IntervalsOf(results), RowTitles(results))
  {
    OrderedStartsAscending(results);
    var order, list := AccumulateBooks(results);
    EntriesAreCountRows(IntervalsOf(results), RowTitles(results), order, list);
    var entries := EntriesInOrder(order, list);
    var sorted := Multisort(entries, EntryRank);
    top := ListFirstFive(sorted);
    MultisortCommutes(entries);
  }

  /**
   * The inner join of reading_intervals with books on book_id: one row per
   * interval whose book exists, carrying the book's title.
   */
  function JoinedRows(iv: seq<ReadingInterval>, books: map<int, Book>): (rows: seq<JoinedRow>)
    ensures forall r :: r in rows <==>
      r.interval in iv && r.interval.bookId in books && r.bookName == books[r.interval.bookId].title
  {
    if |iv| == 0 then []
    else
      var init, x := iv[..|iv| - 1], iv[|iv| - 1];
      assert iv == init + [x];
      var rest := JoinedRows(init, books);
      if x.bookId in books then rest + [JoinedRow(x, books[x.bookId].title)] else rest
  }

  /** Two lists holding the same intervals of book `b` give `b` the same pages. */
  lemma SameIntervalsSamePages(iv1: seq<ReadingInterval>, iv2: seq<ReadingInterval>, b: int)
    requires forall x: ReadingInterval :: x.bookId == b ==> (x in iv1 <==> x in iv2)
    ensures BookPages(iv1, b) == BookPages(iv2, b)
  {
    forall p
      ensures p in BookPages(iv1, b) <==> p in BookPages(iv2, b)
    {
      BookPagesMembership(iv1, b, p);
      BookPagesMembership(iv2, b, p);
      if p in BookPages(iv1, b) {
        var k :| 0 <= k < |iv1| && iv1[k].bookId == b && iv1[k].startPage <= p <= iv1[k].endPage;
        assert iv1[k] in iv2;
      }
      if p in BookPages(iv2, b) {
        var k :| 0 <= k < |iv2| && iv2[k].bookId == b && iv2[k].startPage <= p <= iv2[k].endPage;
        assert iv2[k] in iv1;
      }
    }
  }

  /** An interval is among the joined rows' intervals exactly when it is in the table and its book exists. */
  lemma JoinedIntervals(iv: seq<ReadingInterval>, books: map<int, Book>, results: seq<JoinedRow>)
    requires multiset(results) == multiset(JoinedRows(iv, books))
    ensures forall x: ReadingInterval :: x in IntervalsOf(results) <==> x in iv && x.bookId in books
    ensures forall b :: HasInterval(IntervalsOf(results), b) <==> HasInterval(iv, b) && b in books
    ensures forall b :: Grouped(IntervalsOf(results), b) <==> Grouped(iv, b) && b in books
  {
    var joined := IntervalsOf(results);
    forall x
      ensures x in joined <==> x in iv && x.bookId in books
    {
      if x in joined {
        var k :| 0 <= k < |joined| && joined[k] == x;
        assert results[k] in multiset(JoinedRows(iv, books));
      }
      if x in iv && x.bookId in books {
        var r := JoinedRow(x, books[x.bookId].title);
        assert r in multiset(results);
        var k :| 0 <= k < |results| && results[k] == r;
        assert joined[k] == x;
      }
    }
    forall b
      ensures HasInterval(joined, b) <==> HasInterval(iv, b) && b in books
      ensures Grouped(joined, b) <==> Grouped(iv, b) && b in books
    {
      FilteredBooks(iv, books, joined, b);
    }
  }

  /** A list holding exactly the intervals whose book exists has the same books, restricted to those that exist. */
  lemma FilteredBooks(iv: seq<ReadingInterval>, books: map<int, Book>, joined: seq<ReadingInterval>, b: int)
    requires forall x: ReadingInterval :: x in joined <==> x in iv && x.bookId in books
    ensures HasInterval(joined, b) <==> HasInterval(iv, b) && b in books
    ensures Grouped(joined, b) <==> Grouped(iv, b) && b in books
  {
    if HasInterval(joined, b) {
      var k :| 0 <= k < |joined| && joined[k].bookId == b;
      assert joined[k] in joined;
      var j :| 0 <= j < |iv| && iv[j] == joined[k];
    }
    if HasInterval(iv, b) && b in books {
      var k :| 0 <= k < |iv| && iv[k].bookId == b;
      assert iv[k] in joined;
    }
    if Grouped(joined, b) {
      var k :| 0 <= k < |joined| && joined[k].bookId == b && joined[k].startPage <= joined[k].endPage;
      assert joined[k] in joined;
      var j :| 0 <= j < |iv| && iv[j] == joined[k];
    }
    if Grouped(iv, b) && b in books {
      var k :| 0 <= k < |iv| && iv[k].bookId == b && iv[k].startPage <= iv[k].endPage;
      assert iv[k] in joined;
      var j :| 0 <= j < |joined| && joined[j] == iv[k];
    }
  }

  /** The join of well-formed intervals, in any order, meets the sweep's first requirement. */
  lemma JoinedRowsWellFormed(iv: seq<ReadingInterval>, books: map<int, Book>, results: seq<JoinedRow>)
    requires forall k :: 0 <= k < |iv| ==> WellFormed(iv[k])
    requires multiset(results) == multiset(JoinedRows(iv, books))
    ensures forall k :: 0 <= k < |results| ==> WellFormed(results[k].interval)
  {
    forall k | 0 <= k < |results|
      ensures WellFormed(results[k].interval)
    {
      assert results[k] in multiset(JoinedRows(iv, books));
      var j :| 0 <= j < |iv| && iv[j] == results[k].interval;
    }
  }

  /**
   * Whatever order the join delivers its rows in, the controller's top five
   * computed from them is ReadingInterval::topFiveReadBooks on the table and
   * the books' titles.
   */
  lemma V2MatchesQuery(iv: seq<ReadingInterval>, books: map<int, Book>, results: seq<JoinedRow>)
    requires multiset(results) == multiset(JoinedRows(iv, books))
    ensures TopFiveReadBooks(IntervalsOf(results), RowTitles(results)) == TopFiveReadBooks(iv, Titles(books))
  {
    var joined, named, titles := IntervalsOf(results), RowTitles(results), Titles(books);
    JoinedIntervals(iv, books, results);
    RowTitlesSpec(results);
    forall b
      ensures (Grouped(joined, b) && b in named) <==> (Grouped(iv, b) && b in titles)
    {
      if Grouped(joined, b) {
        GroupedHasInterval(joined, b);
      }
    }
    forall b | Grouped(joined, b) && b in named
      ensures named[b] == titles[b] && UniquePagesRead(joined, b) == UniquePagesRead(iv, b)
    {
      var k :| 0 <= k < |results| && results[k].interval.bookId == b && results[k].bookName == named[b];
      assert results[k] in multiset(JoinedRows(iv, books));
      SameIntervalsSamePages(joined, iv, b);
    }
    TopFiveCongruent(joined, named, iv, titles);
  }

  /** The first interval of a book adds all its pages: [10, 20] alone counts 11. */
  lemma FirstIntervalCountsAll(x: ReadingInterval)
    requires WellFormed(x)
    ensures UniquePagesRead([x], x.bookId) == x.endPage - x.startPage + 1 && MaxEnd([x], x.bookId) == x.endPage
  {
    DisjointIntervalAddsAll([], x);
    assert [] + [x] == [x];
  }

  /**
   * Two intervals of one book, the second starting no earlier: pages of both
   * when they are apart, the first's pages plus those past its last page when
   * the second reaches further, and only the first's pages otherwise.
   */
  lemma TwoIntervals(x: ReadingInterval, y: ReadingInterval)
    requires WellFormed(x) && WellFormed(y)
    requires x.bookId == y.bookId && x.startPage <= y.startPage
    ensures UniquePagesRead([x] + [y], x.bookId) ==
      if y.startPage > x.endPage then (x.endPage - x.startPage + 1) + (y.endPage - y.startPage + 1)
      else if y.endPage > x.endPage then y.endPage - x.startPage + 1
      else x.endPage - x.startPage + 1
  {
    FirstIntervalCountsAll(x);
    if y.startPage > x.endPage {
      DisjointIntervalAddsAll([x], y);
    } else if (y.startPage < x.endPage && y.endPage > x.endPage) || y.startPage == x.endPage {
      OverlappingIntervalAddsTail([x], y);
    } else {
      ContainedIntervalAddsNothing([x], y);
    }
  }

  /** [10, 20] then [25, 30]: disjoint, 11 + 6 = 17 pages. */
  lemma ExampleDisjoint(iv: seq<ReadingInterval>)
    requires |iv| == 2 && iv[0].bookId == iv[1].bookId
    requires iv[0].startPage == 10 && iv[0].endPage == 20 && iv[1].startPage == 25 && iv[1].endPage == 30
    ensures UniquePagesRead(iv, iv[0].bookId) == 17
  {
    assert iv == [iv[0]] + [iv[1]];
    TwoIntervals(iv[0], iv[1]);
  }

  /** [10, 20] then [21, 30]: adjacent, 11 + 10 = 21 pages. */
  lemma ExampleAdjacent(iv: seq<ReadingInterval>)
    requires |iv| == 2 && iv[0].bookId == iv[1].bookId
    requires iv[0].startPage == 10 && iv[0].endPage == 20 && iv[1].startPage == 21 && iv[1].endPage == 30
    ensures UniquePagesRead(iv, iv[0].bookId) == 21
  {
    assert iv == [iv[0]] + [iv[1]];
    TwoIntervals(iv[0], iv[1]);
  }

  /** [10, 20] then [15, 25]: overlapping, 11 + (25 - 20) = 16 pages. */
  lemma ExampleOverlapping(iv: seq<ReadingInterval>)
    requires |iv| == 2 && iv[0].bookId == iv[1].bookId
    requires iv[0].startPage == 10 && iv[0].endPage == 20 && iv[1].startPage == 15 && iv[1].endPage == 25
    ensures UniquePagesRead(iv, iv[0].bookId) == 16
  {
    assert iv == [iv[0]] + [iv[1]];
    TwoIntervals(iv[0], iv[1]);
  }

  /** [10, 20] then [12, 18]: contained, still 11 pages. */
  lemma ExampleContained(iv: seq<ReadingInterval>)
    requires |iv| == 2 && iv[0].bookId == iv[1].bookId
    requires iv[0].startPage == 10 && iv[0].endPage == 20 && iv[1].startPage == 12 && iv[1].endPage == 18
    ensures UniquePagesRead(iv, iv[0].bookId) == 11
  {
    assert iv == [iv[0]] + [iv[1]];
    TwoIntervals(iv[0], iv[1]);
  }
}

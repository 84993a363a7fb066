/**
 * The top-five query of app/Models/ReadingInterval.php: every interval is
 * expanded into its pages, the distinct pages are counted per book, the counts
 * are joined with the books' titles, ranked, and the first five are kept.
 * Counting distinct pages is the definition of a book's coverage: the size of
 * the union of its closed page ranges.
 */
module ReadingIntervalQuery {
  import opened Records
  import opened Ranking

  /** generate_series(start_page, end_page): every page from the first to the last, inclusive. */
  function PageRange(s: int, e: int): (pages: set<int>)
    ensures forall p :: p in pages <==> s <= p <= e
    decreases e - s
  {
    if s > e then {} else {s} + PageRange(s + 1, e)
  }

  /** An interval from `s` to `e` covers exactly e - s + 1 pages. */
  lemma {:induction false} PageRangeSize(s: int, e: int)
    requires s <= e + 1
    ensures |PageRange(s, e)| == e - s + 1
    decreases e - s
  {
    if s <= e {
      assert s !in PageRange(s + 1, e);
      PageRangeSize(s + 1, e);
    }
  }

  /** The pages of book `b` among the expanded intervals, as a set. */
  function BookPages(iv: seq<ReadingInterval>, b: int): set<int>
  {
    if |iv| == 0 then {}
    else
      var last := iv[|iv| - 1];
      BookPages(iv[..|iv| - 1], b) + if last.bookId == b then PageRange(last.startPage, last.endPage) else {}
  }

  /** COUNT(DISTINCT page) for book `b`. */
  function UniquePagesRead(iv: seq<ReadingInterval>, b: int): nat
  {
    |BookPages(iv, b)|
  }

  /** Book `b` has at least one interval. */
  predicate HasInterval(iv: seq<ReadingInterval>, b: int)
  {
    exists k :: 0 <= k < |iv| && iv[k].bookId == b
  }

  /**
   * Book `b` has a row in expanded_intervals: one of its intervals has a first
   * page not past its last, so generate_series yields at least one page.
   */
  predicate Grouped(iv: seq<ReadingInterval>, b: int)
  {
    exists k :: 0 <= k < |iv| && iv[k].bookId == b && iv[k].startPage <= iv[k].endPage
  }

  lemma GroupedHasInterval(iv: seq<ReadingInterval>, b: int)
    requires Grouped(iv, b)
    ensures HasInterval(iv, b)
  {
    var k :| 0 <= k < |iv| && iv[k].bookId == b && iv[k].startPage <= iv[k].endPage;
  }

  /** A page is read exactly when some interval of the book reaches from at most it to at least it. */
  lemma {:induction false} BookPagesMembership(iv: seq<ReadingInterval>, b: int, p: int)
    ensures p in BookPages(iv, b) <==>
      exists k :: 0 <= k < |iv| && iv[k].bookId == b && iv[k].startPage <= p <= iv[k].endPage
  {
    if |iv| > 0 {
      var init := iv[..|iv| - 1];
      BookPagesMembership(init, b, p);
      if p in BookPages(init, b) {
        var k :| 0 <= k < |init| && init[k].bookId == b && init[k].startPage <= p <= init[k].endPage;
        assert iv[k] == init[k];
      }
      if exists k :: 0 <= k < |iv| && iv[k].bookId == b && iv[k].startPage <= p <= iv[k].endPage {
        var k :| 0 <= k < |iv| && iv[k].bookId == b && iv[k].startPage <= p <= iv[k].endPage;
        if k < |iv| - 1 {
          assert init[k] == iv[k];
        }
      }
    }
  }

  /** The count is a function of which intervals there are, not of the order they are listed in. */
  lemma OrderIndependent(iv1: seq<ReadingInterval>, iv2: seq<ReadingInterval>, b: int)
    requires multiset(iv1) == multiset(iv2)
    ensures BookPages(iv1, b) == BookPages(iv2, b)
    ensures UniquePagesRead(iv1, b) == UniquePagesRead(iv2, b)
  {
    forall p
      ensures p in BookPages(iv1, b) <==> p in BookPages(iv2, b)
    {
      BookPagesMembership(iv1, b, p);
      BookPagesMembership(iv2, b, p);
      if p in BookPages(iv1, b) {
        var k :| 0 <= k < |iv1| && iv1[k].bookId == b && iv1[k].startPage <= p <= iv1[k].endPage;
        assert iv1[k] in multiset(iv2);
      }
      if p in BookPages(iv2, b) {
        var k :| 0 <= k < |iv2| && iv2[k].bookId == b && iv2[k].startPage <= p <= iv2[k].endPage;
        assert iv2[k] in multiset(iv1);
      }
    }
  }

  /** Submitting an interval that is already there again counts none of its pages twice. */
  lemma DuplicateCountsOnce(iv: seq<ReadingInterval>, x: ReadingInterval, b: int)
    requires x in iv
    ensures BookPages(iv + [x], b) == BookPages(iv, b)
  {
    assert (iv + [x])[..|iv|] == iv;
    if x.bookId == b {
      var k :| 0 <= k < |iv| && iv[k] == x;
      forall p | p in PageRange(x.startPage, x.endPage)
        ensures p in BookPages(iv, b)
      {
        BookPagesMembership(iv, b, p);
      }
    }
  }

  /** One more interval never lowers any book's count. */
  lemma Monotone(iv: seq<ReadingInterval>, x: ReadingInterval, b: int)
    ensures BookPages(iv, b) <= BookPages(iv + [x], b)
    ensures UniquePagesRead(iv, b) <= UniquePagesRead(iv + [x], b)
  {
    assert (iv + [x])[..|iv|] == iv;
    var extra := if x.bookId == b then PageRange(x.startPage, x.endPage) else {};
    assert BookPages(iv + [x], b) == BookPages(iv, b) + extra;
    assert |BookPages(iv, b) + extra| == |BookPages(iv, b)| + |extra - BookPages(iv, b)| by {
      assert BookPages(iv, b) + extra == BookPages(iv, b) + (extra - BookPages(iv, b));
      assert BookPages(iv, b) !! (extra - BookPages(iv, b));
    }
  }

  /** GROUP BY book_id over expanded_intervals: a book is grouped exactly when it has a page counted. */
  lemma {:induction false} GroupedExactlyWhenPagesRead(iv: seq<ReadingInterval>, b: int)
    ensures Grouped(iv, b) <==> UniquePagesRead(iv, b) > 0
  {
    if Grouped(iv, b) {
      var k :| 0 <= k < |iv| && iv[k].bookId == b && iv[k].startPage <= iv[k].endPage;
      BookPagesMembership(iv, b, iv[k].startPage);
    } else {
      forall p
        ensures p !in BookPages(iv, b)
      {
        BookPagesMembership(iv, b, p);
      }
      assert BookPages(iv, b) == {};
    }
  }

  /** With well-formed intervals, every book with an interval is grouped and reads some pages. */
  lemma PagesExactlyForBooksWithIntervals(iv: seq<ReadingInterval>, b: int)
    requires forall k :: 0 <= k < |iv| ==> WellFormed(iv[k])
    ensures HasInterval(iv, b) <==> Grouped(iv, b)
    ensures HasInterval(iv, b) <==> UniquePagesRead(iv, b) > 0
  {
    GroupedExactlyWhenPagesRead(iv, b);
    if HasInterval(iv, b) {
      var k :| 0 <= k < |iv| && iv[k].bookId == b;
      assert WellFormed(iv[k]);
    }
    if Grouped(iv, b) {
      GroupedHasInterval(iv, b);
    }
  }

  /**
   * The groups of unique_page_counts: each book with a row in
   * expanded_intervals, once, in the order of its first non-empty interval.
   */
  function ReadBookIds(iv: seq<ReadingInterval>): (ids: seq<int>)
    ensures forall i, j :: 0 <= i < j < |ids| ==> ids[i] != ids[j]
    ensures forall b :: b in ids <==> Grouped(iv, b)
  {
    if |iv| == 0 then []
    else
      var init, last := iv[..|iv| - 1], iv[|iv| - 1];
      var ids := ReadBookIds(init);
      assert forall b :: Grouped(init, b) ==> Grouped(iv, b) by {
        forall b | Grouped(init, b) ensures Grouped(iv, b) {
          var k :| 0 <= k < |init| && init[k].bookId == b && init[k].startPage <= init[k].endPage;
          assert iv[k] == init[k];
        }
      }
      assert forall b :: Grouped(iv, b) ==> Grouped(init, b) || (b == last.bookId && last.startPage <= last.endPage) by {
        forall b | Grouped(iv, b) ensures Grouped(init, b) || (b == last.bookId && last.startPage <= last.endPage) {
          var k :| 0 <= k < |iv| && iv[k].bookId == b && iv[k].startPage <= iv[k].endPage;
          if k < |iv| - 1 {
            assert init[k] == iv[k];
          }
        }
      }
      assert last.startPage <= last.endPage ==> Grouped(iv, last.bookId) by {
        if last.startPage <= last.endPage {
          assert iv[|iv| - 1] == last;
        }
      }
      if last.startPage <= last.endPage && last.bookId !in ids then ids + [last.bookId] else ids
  }

  /** The unique_page_counts rows joined with the books' titles: books without a title are dropped. */
  function CountRows(ids: seq<int>, iv: seq<ReadingInterval>, titles: map<int, string>): (rows: seq<Ranked>)
    ensures forall y :: y in rows <==>
      y.bookId in ids && y.bookId in titles && y == Ranked(y.bookId, titles[y.bookId], UniquePagesRead(iv, y.bookId))
  {
    if |ids| == 0 then []
    else
      var rest := CountRows(ids[1..], iv, titles);
      var b := ids[0];
      assert forall c :: c in ids <==> c == b || c in ids[1..];
      if b in titles then [Ranked(b, titles[b], UniquePagesRead(iv, b))] + rest else rest
  }

  /** Grouped ids are distinct, so the joined rows name each book at most once. */
  lemma {:induction false} CountRowsDistinct(ids: seq<int>, iv: seq<ReadingInterval>, titles: map<int, string>)
    requires forall i, j :: 0 <= i < j < |ids| ==> ids[i] != ids[j]
    ensures DistinctIds(CountRows(ids, iv, titles), RankOf)
  {
    if |ids| > 0 {
      var rest := ids[1..];
      CountRowsDistinct(rest, iv, titles);
      if ids[0] in titles {
        var tail := CountRows(rest, iv, titles);
        var row := Ranked(ids[0], titles[ids[0]], UniquePagesRead(iv, ids[0]));
        assert ids[0] !in rest;
        forall k | 0 <= k < |tail|
          ensures RankOf(tail[k]).bookId != RankOf(row).bookId
        {
          assert tail[k] in tail;
        }
        ConsDistinct(row, tail, RankOf);
        assert CountRows(ids, iv, titles) == [row] + tail;
      }
    }
  }

  /** The books the query can list: those grouped and with a title. */
  function RankableBooks(iv: seq<ReadingInterval>, titles: map<int, string>): set<int>
  {
    set b | b in ReadBookIds(iv) && b in titles
  }

  /** ReadingInterval::topFiveReadBooks: the counted, joined rows, ranked, at most five of them. */
  function TopFiveReadBooks(iv: seq<ReadingInterval>, titles: map<int, string>): seq<Ranked>
  {
    TakeFirst(Multisort(CountRows(ReadBookIds(iv), iv, titles), RankOf))
  }

  lemma {:induction false} CountRowsSize(ids: seq<int>, iv: seq<ReadingInterval>, titles: map<int, string>)
    requires forall i, j :: 0 <= i < j < |ids| ==> ids[i] != ids[j]
    ensures |CountRows(ids, iv, titles)| == |set b | b in ids && b in titles|
  {
    if |ids| > 0 {
      CountRowsSize(ids[1..], iv, titles);
      var rest := set b | b in ids[1..] && b in titles;
      assert ids[0] !in ids[1..];
      if ids[0] in titles {
        assert (set b | b in ids && b in titles) == {ids[0]} + rest;
      } else {
        assert (set b | b in ids && b in titles) == rest;
      }
    }
  }

  /** The answer holds five rows, or one per rankable book when there are fewer than five. */
  lemma TopFiveSize(iv: seq<ReadingInterval>, titles: map<int, string>)
    ensures |TopFiveReadBooks(iv, titles)| ==
      if |RankableBooks(iv, titles)| > Limit then Limit else |RankableBooks(iv, titles)|
  {
    CountRowsSize(ReadBookIds(iv), iv, titles);
  }

  /** The rows come by pages read descending, then book id ascending. */
  lemma TopFiveSorted(iv: seq<ReadingInterval>, titles: map<int, string>)
    ensures SortedBy(TopFiveReadBooks(iv, titles), RankOf)
  {
    var counted := CountRows(ReadBookIds(iv), iv, titles);
    CountRowsDistinct(ReadBookIds(iv), iv, titles);
    MultisortSorted(counted, RankOf);
  }

  /**
   * Each row is a grouped book with a title, listed with its title and its
   * count of distinct pages, which is positive.
   */
  lemma TopFiveRows(iv: seq<ReadingInterval>, titles: map<int, string>, y: Ranked)
    requires y in TopFiveReadBooks(iv, titles)
    ensures Grouped(iv, y.bookId)
    ensures y.bookId in titles && y.bookName == titles[y.bookId]
    ensures y.numOfReadPages == UniquePagesRead(iv, y.bookId) > 0
  {
    var ids := ReadBookIds(iv);
    var counted := CountRows(ids, iv, titles);
    var sorted := Multisort(counted, RankOf);
    assert y in sorted;
    assert y in multiset(counted);
    assert y.bookId in ids;
    GroupedExactlyWhenPagesRead(iv, y.bookId);
  }

  /** A rankable book left out of the answer ranks after every row of a full answer. */
  lemma TopFiveIsTop(iv: seq<ReadingInterval>, titles: map<int, string>, b: int)
    requires b in RankableBooks(iv, titles)
    requires forall y :: y in TopFiveReadBooks(iv, titles) ==> y.bookId != b
    ensures |TopFiveReadBooks(iv, titles)| == Limit
    ensures forall y :: y in TopFiveReadBooks(iv, titles) ==>
      Precedes(RankOf(y), Rank(UniquePagesRead(iv, b), b))
  {
    var counted := CountRows(ReadBookIds(iv), iv, titles);
    CountRowsDistinct(ReadBookIds(iv), iv, titles);
    MultisortSorted(counted, RankOf);
    var sorted := Multisort(counted, RankOf);
    var row := Ranked(b, titles[b], UniquePagesRead(iv, b));
    assert row in multiset(sorted);
    var j :| 0 <= j < |sorted| && sorted[j] == row;
    LeftOutRanksAfter(sorted, RankOf, j);
    var top := TakeFirst(sorted);
    forall y | y in top
      ensures Precedes(RankOf(y), Rank(UniquePagesRead(iv, b), b))
    {
      var i :| 0 <= i < |top| && top[i] == y;
    }
  }

  /**
   * The answer depends only on which books are rankable, their titles and
   * their counts: two inputs that agree on those give the same rows in the
   * same order.
   */
  lemma TopFiveCongruent(iv1: seq<ReadingInterval>, titles1: map<int, string>,
                         iv2: seq<ReadingInterval>, titles2: map<int, string>)
    requires forall b :: (Grouped(iv1, b) && b in titles1) <==> (Grouped(iv2, b) && b in titles2)
    requires forall b :: Grouped(iv1, b) && b in titles1 ==>
      titles1[b] == titles2[b] && UniquePagesRead(iv1, b) == UniquePagesRead(iv2, b)
    ensures TopFiveReadBooks(iv1, titles1) == TopFiveReadBooks(iv2, titles2)
  {
    var c1 := CountRows(ReadBookIds(iv1), iv1, titles1);
    var c2 := CountRows(ReadBookIds(iv2), iv2, titles2);
    CountRowsDistinct(ReadBookIds(iv1), iv1, titles1);
    CountRowsDistinct(ReadBookIds(iv2), iv2, titles2);
    MultisortSorted(c1, RankOf);
    MultisortSorted(c2, RankOf);
    var s1, s2 := Multisort(c1, RankOf), Multisort(c2, RankOf);
    forall y
      ensures y in s1 <==> y in s2
    {
      assert y in s1 <==> y in multiset(c1);
      assert y in s2 <==> y in multiset(c2);
      var b := y.bookId;
      assert b in ReadBookIds(iv1) <==> Grouped(iv1, b);
      assert b in ReadBookIds(iv2) <==> Grouped(iv2, b);
      if Grouped(iv1, b) && b in titles1 {
        assert titles1[b] == titles2[b] && UniquePagesRead(iv1, b) == UniquePagesRead(iv2, b);
      }
    }
    SortedUnique(s1, s2, RankOf);
  }

  /** Listing the same intervals in another order gives the same answer. */
  lemma TopFiveOrderIndependent(iv1: seq<ReadingInterval>, iv2: seq<ReadingInterval>, titles: map<int, string>)
    requires multiset(iv1) == multiset(iv2)
    ensures TopFiveReadBooks(iv1, titles) == TopFiveReadBooks(iv2, titles)
  {
    forall b
      ensures Grouped(iv1, b) <==> Grouped(iv2, b)
    {
      GroupedExactlyWhenPagesRead(iv1, b);
      GroupedExactlyWhenPagesRead(iv2, b);
      OrderIndependent(iv1, iv2, b);
    }
    forall b
      ensures UniquePagesRead(iv1, b) == UniquePagesRead(iv2, b)
    {
      OrderIndependent(iv1, iv2, b);
    }
    TopFiveCongruent(iv1, titles, iv2, titles);
  }
}

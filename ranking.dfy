/**
 * The order both top-five computations rank books by: pages read descending,
 * then book id ascending (ORDER BY unique_pages_read DESC, book_id ASC in the
 * query; array_multisort(total_pages, SORT_DESC, book_id, SORT_ASC) in the
 * controller), and the sort that puts a list into that order.
 */
module Ranking {
  import opened Records

  /** How many books a top-five answer holds at most (LIMIT 5; `count > 5 ? 5 : count`). */
  const Limit := 5

  /** The sort key of a book: pages read and book id. */
  datatype Rank = Rank(pages: int, bookId: int)

  /** `x` ranks strictly before `y`: more pages, or as many pages and a smaller book id. */
  predicate Precedes(x: Rank, y: Rank)
  {
    x.pages > y.pages || (x.pages == y.pages && x.bookId < y.bookId)
  }

  function RankOf(r: Ranked): Rank
  {
    Rank(r.numOfReadPages, r.bookId)
  }

  /** Every element ranks strictly before every later one. */
  predicate SortedBy<T>(s: seq<T>, key: T -> Rank)
  {
    forall i, j :: 0 <= i < j < |s| ==> Precedes(key(s[i]), key(s[j]))
  }

  /** No two elements are about the same book. */
  predicate DistinctIds<T>(s: seq<T>, key: T -> Rank)
  {
    forall i, j :: 0 <= i < j < |s| ==> key(s[i]).bookId != key(s[j]).bookId
  }

  /** Precedes is a strict total order on keys of different books. */
  lemma PrecedesTotal(x: Rank, y: Rank)
    requires x.bookId != y.bookId
    ensures Precedes(x, y) != Precedes(y, x)
  {
    if x.pages == y.pages {
      assert Precedes(x, y) <==> x.bookId < y.bookId;
    }
  }

  /** Puts `x` into the sorted list `s` after every element that precedes it. */
  function Insert<T>(x: T, s: seq<T>, key: T -> Rank): (r: seq<T>)
    ensures multiset(r) == multiset(s) + multiset{x}
  {
    if |s| == 0 then [x]
    else if Precedes(key(x), key(s[0])) then [x] + s
    else
      assert s == [s[0]] + s[1..];
      [s[0]] + Insert(x, s[1..], key)
  }

  /** The sort both computations apply: the result is a permutation of the input. */
  function Multisort<T>(s: seq<T>, key: T -> Rank): (r: seq<T>)
    ensures multiset(r) == multiset(s)
  {
    if |s| == 0 then []
    else
      assert s == [s[0]] + s[1..];
      Insert(s[0], Multisort(s[1..], key), key)
  }

  /** The first `Limit` elements, or all of them when there are fewer. */
  function TakeFirst<T>(s: seq<T>): seq<T>
  {
    if |s| > Limit then s[..Limit] else s
  }

  /** An element ranking before every element of a sorted list can head it. */
  lemma ConsSorted<T>(h: T, r: seq<T>, key: T -> Rank)
    requires SortedBy(r, key)
    requires forall k :: 0 <= k < |r| ==> Precedes(key(h), key(r[k]))
    ensures SortedBy([h] + r, key)
  {
    var t := [h] + r;
    forall i, j | 0 <= i < j < |t|
      ensures Precedes(key(t[i]), key(t[j]))
    {
      assert t[j] == r[j - 1];
      if i > 0 {
        assert t[i] == r[i - 1];
      }
    }
  }

  /** An element about a book none of a list's elements is about can head it and the books stay distinct. */
  lemma ConsDistinct<T>(h: T, r: seq<T>, key: T -> Rank)
    requires DistinctIds(r, key)
    requires forall k :: 0 <= k < |r| ==> key(r[k]).bookId != key(h).bookId
    ensures DistinctIds([h] + r, key)
  {
    var t := [h] + r;
    forall i, j | 0 <= i < j < |t|
      ensures key(t[i]).bookId != key(t[j]).bookId
    {
      assert t[j] == r[j - 1];
      if i > 0 {
        assert t[i] == r[i - 1];
      }
    }
  }

  lemma SortedTail<T>(s: seq<T>, key: T -> Rank)
    requires |s| > 0 && SortedBy(s, key)
    ensures SortedBy(s[1..], key)
    ensures forall k :: 0 <= k < |s[1..]| ==> Precedes(key(s[0]), key(s[1..][k]))
  {
    forall i, j | 0 <= i < j < |s[1..]|
      ensures Precedes(key(s[1..][i]), key(s[1..][j]))
    {
      assert s[1..][i] == s[i + 1] && s[1..][j] == s[j + 1];
    }
  }

  /**
   * An element of a sorted list that the first `Limit` leave out: the list
   * was longer than `Limit`, and every element kept ranks before it.
   */
  lemma LeftOutRanksAfter<T>(sorted: seq<T>, key: T -> Rank, j: nat)
    requires SortedBy(sorted, key) && j < |sorted|
    requires sorted[j] !in TakeFirst(sorted)
    ensures |TakeFirst(sorted)| == Limit
    ensures forall i :: 0 <= i < Limit ==> Precedes(key(TakeFirst(sorted)[i]), key(sorted[j]))
  {
  }

  lemma {:induction false} InsertSorted<T>(x: T, s: seq<T>, key: T -> Rank)
    requires SortedBy(s, key)
    requires forall k :: 0 <= k < |s| ==> key(s[k]).bookId != key(x).bookId
    ensures SortedBy(Insert(x, s, key), key)
  {
    if |s| == 0 {
    } else if Precedes(key(x), key(s[0])) {
      ConsSorted(x, s, key);
    } else {
      PrecedesTotal(key(x), key(s[0]));
      var tail := s[1..];
      SortedTail(s, key);
      assert forall k :: 0 <= k < |tail| ==> tail[k] == s[k + 1];
      InsertSorted(x, tail, key);
      var r := Insert(x, tail, key);
      forall k | 0 <= k < |r|
        ensures Precedes(key(s[0]), key(r[k]))
      {
        assert r[k] in multiset(tail) + multiset{x};
        if r[k] != x {
          assert r[k] in tail;
        }
      }
      ConsSorted(s[0], r, key);
    }
  }

  /** Sorting a list of distinct books yields the strict ranking order. */
  lemma {:induction false} MultisortSorted<T>(s: seq<T>, key: T -> Rank)
    requires DistinctIds(s, key)
    ensures SortedBy(Multisort(s, key), key)
  {
    if |s| > 0 {
      var rest := Multisort(s[1..], key);
      MultisortSorted(s[1..], key);
      forall k | 0 <= k < |rest|
        ensures key(rest[k]).bookId != key(s[0]).bookId
      {
        assert rest[k] in multiset(s[1..]);
        var j :| 0 <= j < |s[1..]| && s[1..][j] == rest[k];
        assert s[j + 1] == rest[k];
      }
      InsertSorted(s[0], rest, key);
    }
  }

  /**
   * The ranking order is total on distinct books, so a strictly sorted list
   * is determined by its elements alone: the order in which the books were
   * supplied cannot change the ranking.
   */
  lemma {:induction false} SortedUnique<T>(a: seq<T>, b: seq<T>, key: T -> Rank)
    requires SortedBy(a, key) && SortedBy(b, key)
    requires forall x :: x in a <==> x in b
    ensures a == b
    decreases |a|
  {
    if |a| == 0 {
      assert forall x :: x in multiset(b) ==> x in a;
      assert multiset(b) == multiset{};
    } else {
      assert |b| > 0 by {
        assert a[0] in b;
      }
      assert a[0] == b[0] by {
        assert a[0] in b && b[0] in a;
        var j :| 0 <= j < |b| && b[j] == a[0];
        var i :| 0 <= i < |a| && a[i] == b[0];
        if i > 0 && j > 0 {
          assert false;
        }
      }
      forall x
        ensures x in a[1..] <==> x in b[1..]
      {
        if x in a[1..] {
          var i :| 0 < i < |a| && a[i] == x;
          assert Precedes(key(a[0]), key(x));
          assert x in b;
        }
        if x in b[1..] {
          var j :| 0 < j < |b| && b[j] == x;
          assert Precedes(key(b[0]), key(x));
          assert x in a;
        }
      }
      SortedUnique(a[1..], b[1..], key);
      assert a == [a[0]] + a[1..] && b == [b[0]] + b[1..];
    }
  }
}

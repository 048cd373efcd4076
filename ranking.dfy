/** Ranking by a numeric key with a bucket that sorts last, as both
    recorders do with `Array.prototype.sort` and a subtracting comparator.
    Section 22.1.3.27 of ECMA-262 (2019 edition) makes that sort stable, and
    a NaN comparator result (two infinite keys subtracted) counts as 0, so
    all elements without a key tie with each other and keep their order.

    `SortBy` is a stable insertion sort; `StableSortIsUnique` shows that any
    sorted and stable rearrangement is that same sequence, so the choice of
    algorithm does not matter. */
module Ranking {

  /** A sort key: a finite number, or the bucket that comes after them all. */
  datatype Rank = Finite(key: real) | Last

  /** The comparator's "not after": `a - b <= 0` with NaN read as 0. */
  predicate RankLe(a: Rank, b: Rank) {
    b.Last? || (a.Finite? && a.key <= b.key)
  }

  predicate Sorted<T>(s: seq<T>, rank: T -> Rank) {
    forall i, j :: 0 <= i < j < |s| ==> RankLe(rank(s[i]), rank(s[j]))
  }

  /** The elements of `s` whose key is `k`, in their order in `s`. */
  function WithRank<T>(s: seq<T>, rank: T -> Rank, k: Rank): seq<T> {
    if s == [] then []
    else (if rank(s[0]) == k then [s[0]] else []) + WithRank(s[1..], rank, k)
  }

  /** `r` lists the elements of every key in the same order as `s` does. */
  ghost predicate Stable<T>(r: seq<T>, s: seq<T>, rank: T -> Rank) {
    forall k :: WithRank(r, rank, k) == WithRank(s, rank, k)
  }

  /** Puts `x` in front of the first element it does not come after. */
  function Insert<T>(x: T, s: seq<T>, rank: T -> Rank): seq<T> {
    if s == [] || RankLe(rank(x), rank(s[0])) then [x] + s
    else [s[0]] + Insert(x, s[1..], rank)
  }

  /** `s.slice().sort(cmp)` for the comparator that `rank` stands for. */
  function SortBy<T>(s: seq<T>, rank: T -> Rank): seq<T> {
    if s == [] then [] else Insert(s[0], SortBy(s[1..], rank), rank)
  }

  lemma {:induction false} InsertPermutes<T>(x: T, s: seq<T>, rank: T -> Rank)
    ensures |Insert(x, s, rank)| == |s| + 1
    ensures multiset(Insert(x, s, rank)) == multiset(s) + multiset{x}
  {
    if s != [] && !RankLe(rank(x), rank(s[0])) {
      InsertPermutes(x, s[1..], rank);
      assert s == [s[0]] + s[1..];
    }
  }

  lemma {:induction false} InsertSorted<T>(x: T, s: seq<T>, rank: T -> Rank)
    requires Sorted(s, rank)
    ensures Sorted(Insert(x, s, rank), rank)
  {
    if s != [] && !RankLe(rank(x), rank(s[0])) {
      var tail := Insert(x, s[1..], rank);
      InsertSorted(x, s[1..], rank);
      InsertPermutes(x, s[1..], rank);
      forall e | e in tail
        ensures RankLe(rank(s[0]), rank(e))
      {
        assert e in multiset(tail);
        if e != x {
          assert e in multiset(s[1..]);
          var j :| 0 <= j < |s[1..]| && s[1..][j] == e;
          assert s[j + 1] == e;
        }
      }
      var r := [s[0]] + tail;
      forall i, j | 0 <= i < j < |r|
        ensures RankLe(rank(r[i]), rank(r[j]))
      {
        if i == 0 {
          assert r[j] == tail[j - 1];
          assert r[j] in tail;
        } else {
          assert r[i] == tail[i - 1] && r[j] == tail[j - 1];
        }
      }
    }
  }

  /** Inserting `x` adds it in front of the elements that share its key:
      everything it passes has a strictly smaller key. */
  lemma {:induction false} InsertWithRank<T>(x: T, s: seq<T>, rank: T -> Rank, k: Rank)
    ensures WithRank(Insert(x, s, rank), rank, k)
         == (if rank(x) == k then [x] else []) + WithRank(s, rank, k)
  {
    if s == [] || RankLe(rank(x), rank(s[0])) {
      assert ([x] + s)[1..] == s;
    } else {
      InsertWithRank(x, s[1..], rank, k);
      assert ([s[0]] + Insert(x, s[1..], rank))[1..] == Insert(x, s[1..], rank);
    }
  }

  /** The ranking is a permutation of its input. */
  lemma {:induction false} SortByPermutes<T>(s: seq<T>, rank: T -> Rank)
    ensures |SortBy(s, rank)| == |s|
    ensures multiset(SortBy(s, rank)) == multiset(s)
  {
    if s != [] {
      SortByPermutes(s[1..], rank);
      InsertPermutes(s[0], SortBy(s[1..], rank), rank);
      assert s == [s[0]] + s[1..];
    }
  }

  /** The ranking is ordered by key, with the `Last` bucket at the end. */
  lemma {:induction false} SortBySorted<T>(s: seq<T>, rank: T -> Rank)
    ensures Sorted(SortBy(s, rank), rank)
  {
    if s != [] {
      SortBySorted(s[1..], rank);
      InsertSorted(s[0], SortBy(s[1..], rank), rank);
    }
  }

  /** Elements with equal keys keep their original relative order. */
  lemma {:induction false} SortByStable<T>(s: seq<T>, rank: T -> Rank)
    ensures Stable(SortBy(s, rank), s, rank)
  {
    if s != [] {
      forall k
        ensures WithRank(SortBy(s, rank), rank, k) == WithRank(s, rank, k)
      {
        SortByStable(s[1..], rank);
        InsertWithRank(s[0], SortBy(s[1..], rank), rank, k);
      }
    }
  }

  lemma HeadRankListed<T>(s: seq<T>, rank: T -> Rank)
    ensures s != [] ==> WithRank(s, rank, rank(s[0])) != []
  {
  }

  lemma {:induction false} WithRankFinds<T>(s: seq<T>, rank: T -> Rank, k: Rank)
    requires WithRank(s, rank, k) != []
    ensures exists i :: 0 <= i < |s| && rank(s[i]) == k
  {
    if rank(s[0]) != k {
      WithRankFinds(s[1..], rank, k);
      var i :| 0 <= i < |s[1..]| && rank(s[1..][i]) == k;
      assert rank(s[i + 1]) == k;
    }
  }

  /** In a sorted sequence, the first element's key is not after any key
      that occurs in it. */
  lemma FirstRankIsLeast<T>(s: seq<T>, rank: T -> Rank, k: Rank)
    requires Sorted(s, rank) && WithRank(s, rank, k) != []
    ensures RankLe(rank(s[0]), k)
  {
    WithRankFinds(s, rank, k);
  }

  /** A sorted, stable rearrangement is unique: two sequences that are both
      sorted by `rank` and list every key's elements in the same order are
      equal. Hence any stable sort gives exactly `SortBy`. */
  lemma {:induction false} StableSortIsUnique<T>(a: seq<T>, b: seq<T>, rank: T -> Rank)
    requires Sorted(a, rank) && Sorted(b, rank) && Stable(a, b, rank)
    ensures a == b
    decreases |a|
  {
    if a == [] && b == [] {
    } else if a == [] {
      HeadRankListed(b, rank);
      assert false;
    } else if b == [] {
      HeadRankListed(a, rank);
      assert false;
    } else {
      var ka, kb := rank(a[0]), rank(b[0]);
      assert WithRank(b, rank, kb) != [];
      FirstRankIsLeast(a, rank, kb);
      assert WithRank(a, rank, ka) != [];
      FirstRankIsLeast(b, rank, ka);
      assert ka == kb;
      assert a[0] == WithRank(a, rank, ka)[0] == WithRank(b, rank, ka)[0] == b[0];
      forall k
        ensures WithRank(a[1..], rank, k) == WithRank(b[1..], rank, k)
      {
        var head := if ka == k then [a[0]] else [];
        assert WithRank(a, rank, k) == head + WithRank(a[1..], rank, k);
        assert WithRank(b, rank, k) == head + WithRank(b[1..], rank, k);
        assert (head + WithRank(a[1..], rank, k))[|head|..] == WithRank(a[1..], rank, k);
        assert (head + WithRank(b[1..], rank, k))[|head|..] == WithRank(b[1..], rank, k);
      }
      StableSortIsUnique(a[1..], b[1..], rank);
      assert a == [a[0]] + a[1..] && b == [b[0]] + b[1..];
    }
  }

  lemma {:induction false} WithRankAppend<T>(a: seq<T>, b: seq<T>, rank: T -> Rank, k: Rank)
    ensures WithRank(a + b, rank, k) == WithRank(a, rank, k) + WithRank(b, rank, k)
  {
    if a != [] {
      WithRankAppend(a[1..], b, rank, k);
      assert (a + b)[1..] == a[1..] + b;
    } else {
      assert a + b == b;
    }
  }

  /** When every element has key `k`, selecting key `k` keeps them all and
      selecting any other key keeps none. */
  lemma {:induction false} WithRankUniform<T>(s: seq<T>, rank: T -> Rank, k: Rank, other: Rank)
    requires forall i :: 0 <= i < |s| ==> rank(s[i]) == k
    requires other != k
    ensures WithRank(s, rank, k) == s && WithRank(s, rank, other) == []
  {
    if s != [] {
      WithRankUniform(s[1..], rank, k, other);
    }
  }
}

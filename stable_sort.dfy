/** `Array.prototype.sort` with a comparator, which ECMAScript requires to be stable.
    Every comparator in the front end orders by one or two integer keys, so a sort key is
    a `Rank`: a major key and a tie-breaking minor key, compared lexicographically.
    The sort is modelled by a stable insertion sort, and `SortedUnique` shows that any
    stable sort returns the same sequence, whatever algorithm the engine runs. */
module StableSort {
  import opened Sequences

  datatype Rank = Rank(major: int, minor: int)

  predicate RankLe(a: Rank, b: Rank) {
    a.major < b.major || (a.major == b.major && a.minor <= b.minor)
  }

  predicate Sorted<T>(s: seq<T>, rank: T -> Rank) {
    forall i, j :: 0 <= i < j < |s| ==> RankLe(rank(s[i]), rank(s[j]))
  }

  /** The elements of `s` whose rank is `k`, in their order in `s`. A sort is stable when
      it keeps every such subsequence as it was. */
  function SameRank<T>(s: seq<T>, rank: T -> Rank, k: Rank): (r: seq<T>)
    ensures forall i :: 0 <= i < |r| ==> rank(r[i]) == k
  {
    if |s| == 0 then [] else (if rank(s[0]) == k then [s[0]] else []) + SameRank(s[1..], rank, k)
  }

  /** Places `x` after every element of `t` that does not rank above it. */
  function Insert<T>(t: seq<T>, x: T, rank: T -> Rank): (r: seq<T>)
    ensures |r| == |t| + 1
  {
    if |t| == 0 then [x]
    else if RankLe(rank(t[0]), rank(x)) then [t[0]] + Insert(t[1..], x, rank)
    else [x] + t
  }

  function SortBy<T>(s: seq<T>, rank: T -> Rank): (r: seq<T>)
    ensures |r| == |s|
  {
    if |s| == 0 then [] else Insert(SortBy(s[..|s| - 1], rank), s[|s| - 1], rank)
  }

  lemma SameRankAppend<T>(a: seq<T>, b: seq<T>, rank: T -> Rank, k: Rank)
    ensures SameRank(a + b, rank, k) == SameRank(a, rank, k) + SameRank(b, rank, k)
  {
    if |a| > 0 {
      assert (a + b)[1..] == a[1..] + b;
      SameRankAppend(a[1..], b, rank, k);
    } else {
      assert a + b == b;
    }
  }

  lemma SameRankConcat<T>(a: seq<T>, b: seq<T>, rank: T -> Rank)
    ensures forall k :: SameRank(a + b, rank, k) == SameRank(a, rank, k) + SameRank(b, rank, k)
  {
    forall k ensures SameRank(a + b, rank, k) == SameRank(a, rank, k) + SameRank(b, rank, k) {
      SameRankAppend(a, b, rank, k);
    }
  }

  lemma SameRankEmpty<T>(s: seq<T>, rank: T -> Rank, k: Rank)
    requires forall i :: 0 <= i < |s| ==> rank(s[i]) != k
    ensures SameRank(s, rank, k) == []
  {
    if |s| > 0 {
      SameRankEmpty(s[1..], rank, k);
    }
  }

  /** Every element of `s` is found among the elements of its own rank. */
  lemma {:induction false} InSameRank<T>(s: seq<T>, rank: T -> Rank, i: nat)
    requires i < |s|
    ensures s[i] in SameRank(s, rank, rank(s[i]))
  {
    if i > 0 {
      InSameRank(s[1..], rank, i - 1);
    }
  }

  /** An element found among the elements of rank `k` is an element of `s`. */
  lemma {:induction false} SameRankIn<T>(s: seq<T>, rank: T -> Rank, k: Rank, x: T)
    requires x in SameRank(s, rank, k)
    ensures x in s
  {
    if |s| > 0 && x != s[0] {
      SameRankIn(s[1..], rank, k, x);
    }
  }

  lemma {:induction false} InsertMultiset<T>(t: seq<T>, x: T, rank: T -> Rank)
    ensures multiset(Insert(t, x, rank)) == multiset(t) + multiset{x}
  {
    if |t| > 0 && RankLe(rank(t[0]), rank(x)) {
      InsertMultiset(t[1..], x, rank);
      assert t == [t[0]] + t[1..];
    }
  }

  lemma {:induction false} InsertSorted<T>(t: seq<T>, x: T, rank: T -> Rank)
    requires Sorted(t, rank)
    ensures Sorted(Insert(t, x, rank), rank)
  {
    if |t| > 0 && RankLe(rank(t[0]), rank(x)) {
      var rest := Insert(t[1..], x, rank);
      InsertSorted(t[1..], x, rank);
      InsertMultiset(t[1..], x, rank);
      forall j | 0 <= j < |rest| ensures RankLe(rank(t[0]), rank(rest[j])) {
        assert rest[j] in multiset(t[1..]) + multiset{x};
        if rest[j] != x {
          assert rest[j] in t[1..];
        }
      }
    }
  }

  lemma {:induction false} InsertSameRank<T>(t: seq<T>, x: T, rank: T -> Rank, k: Rank)
    requires Sorted(t, rank)
    ensures SameRank(Insert(t, x, rank), rank, k)
         == SameRank(t, rank, k) + (if rank(x) == k then [x] else [])
  {
    if |t| == 0 {
    } else if RankLe(rank(t[0]), rank(x)) {
      var rest := Insert(t[1..], x, rank);
      var head := if rank(t[0]) == k then [t[0]] else [];
      assert Sorted(t[1..], rank);
      InsertSameRank(t[1..], x, rank, k);
      assert ([t[0]] + rest)[1..] == rest;
      assert SameRank(Insert(t, x, rank), rank, k) == head + SameRank(rest, rank, k);
      assert SameRank(t, rank, k) == head + SameRank(t[1..], rank, k);
    } else {
      assert ([x] + t)[1..] == t;
      if rank(x) == k {
        SameRankEmpty(t, rank, k);
      }
    }
  }

  /** The sort returns a permutation of its input. */
  lemma {:induction false} SortByPermutes<T>(s: seq<T>, rank: T -> Rank)
    ensures multiset(SortBy(s, rank)) == multiset(s)
  {
    if |s| > 0 {
      var init := s[..|s| - 1];
      SortByPermutes(init, rank);
      InsertMultiset(SortBy(init, rank), s[|s| - 1], rank);
      assert s == init + [s[|s| - 1]];
    }
  }

  /** The sort returns its input in ascending rank. */
  lemma {:induction false} SortBySorted<T>(s: seq<T>, rank: T -> Rank)
    ensures Sorted(SortBy(s, rank), rank)
  {
    if |s| > 0 {
      SortBySorted(s[..|s| - 1], rank);
      InsertSorted(SortBy(s[..|s| - 1], rank), s[|s| - 1], rank);
    }
  }

  /** The sort is stable: elements of equal rank keep their relative order. */
  lemma {:induction false} SortByStable<T>(s: seq<T>, rank: T -> Rank, k: Rank)
    ensures SameRank(SortBy(s, rank), rank, k) == SameRank(s, rank, k)
  {
    if |s| > 0 {
      var init := s[..|s| - 1];
      SortByStable(init, rank, k);
      SortBySorted(init, rank);
      InsertSameRank(SortBy(init, rank), s[|s| - 1], rank, k);
      assert s == init + [s[|s| - 1]];
      SameRankAppend(init, [s[|s| - 1]], rank, k);
    }
  }

  /** Everything a stable sort promises, in one place. */
  lemma SortBySpec<T>(s: seq<T>, rank: T -> Rank)
    ensures multiset(SortBy(s, rank)) == multiset(s)
    ensures Sorted(SortBy(s, rank), rank)
    ensures forall k :: SameRank(SortBy(s, rank), rank, k) == SameRank(s, rank, k)
  {
    SortByPermutes(s, rank);
    SortBySorted(s, rank);
    forall k ensures SameRank(SortBy(s, rank), rank, k) == SameRank(s, rank, k) {
      SortByStable(s, rank, k);
    }
  }

  /** Two sequences in ascending rank that agree on the order of each rank's elements are
      equal: a stable sort's result is determined by its input alone. */
  lemma {:induction false} SortedUnique<T>(a: seq<T>, b: seq<T>, rank: T -> Rank)
    requires Sorted(a, rank) && Sorted(b, rank)
    requires forall k :: SameRank(a, rank, k) == SameRank(b, rank, k)
    ensures a == b
  {
    if |a| == 0 && |b| == 0 {
    } else if |a| == 0 || |b| == 0 {
      // the non-empty one has an element of some rank that the empty one lacks
      if |a| > 0 {
        InSameRank(a, rank, 0);
      }
      assert false;
    } else {
      var ka, kb := rank(a[0]), rank(b[0]);
      InSameRank(a, rank, 0);
      SameRankIn(b, rank, ka, a[0]);
      InSameRank(b, rank, 0);
      SameRankIn(a, rank, kb, b[0]);
      assert RankLe(kb, ka) by {
        var i :| 0 <= i < |b| && b[i] == a[0];
        assert rank(b[i]) == ka;
      }
      assert RankLe(ka, kb) by {
        var i :| 0 <= i < |a| && a[i] == b[0];
        assert rank(a[i]) == kb;
      }
      assert ka == kb;
      assert SameRank(a, rank, ka)[0] == a[0];
      assert SameRank(b, rank, ka)[0] == b[0];
      assert SameRank(a, rank, ka) == SameRank(b, rank, ka);
      forall k ensures SameRank(a[1..], rank, k) == SameRank(b[1..], rank, k) {
        assert SameRank(a, rank, k) == SameRank(b, rank, k);
        assert SameRank(a, rank, k) == (if ka == k then [a[0]] else []) + SameRank(a[1..], rank, k);
        assert SameRank(b, rank, k) == (if kb == k then [b[0]] else []) + SameRank(b[1..], rank, k);
        if k == ka {
          assert SameRank(a, rank, k)[1..] == SameRank(a[1..], rank, k);
          assert SameRank(b, rank, k)[1..] == SameRank(b[1..], rank, k);
        } else {
          assert SameRank(a, rank, k) == SameRank(a[1..], rank, k);
          assert SameRank(b, rank, k) == SameRank(b[1..], rank, k);
        }
      }
      SortedUnique(a[1..], b[1..], rank);
      assert a == [a[0]] + a[1..] && b == [b[0]] + b[1..];
    }
  }

  /** Sorting a sequence that is already in ascending rank changes nothing. */
  lemma SortOfSorted<T>(s: seq<T>, rank: T -> Rank)
    requires Sorted(s, rank)
    ensures SortBy(s, rank) == s
  {
    SortBySorted(s, rank);
    forall k ensures SameRank(SortBy(s, rank), rank, k) == SameRank(s, rank, k) {
      SortByStable(s, rank, k);
    }
    SortedUnique(SortBy(s, rank), s, rank);
  }

  lemma {:induction false} FilterSameRank<T>(s: seq<T>, p: T -> bool, rank: T -> Rank, k: Rank)
    ensures SameRank(Filter(s, p), rank, k) == Filter(SameRank(s, rank, k), p)
  {
    if |s| > 0 {
      FilterSameRank(s[1..], p, rank, k);
      var head := if p(s[0]) then [s[0]] else [];
      SameRankAppend(head, Filter(s[1..], p), rank, k);
      FilterAppend(if rank(s[0]) == k then [s[0]] else [], SameRank(s[1..], rank, k), p);
    }
  }

  lemma {:induction false} FilterSorted<T>(s: seq<T>, p: T -> bool, rank: T -> Rank)
    requires Sorted(s, rank)
    ensures Sorted(Filter(s, p), rank)
  {
    if |s| > 0 {
      FilterSorted(s[1..], p, rank);
      var rest := Filter(s[1..], p);
      forall j | 0 <= j < |rest| ensures RankLe(rank(s[0]), rank(rest[j])) {
        assert rest[j] in multiset(s[1..]);
        assert rest[j] in s[1..];
      }
    }
  }

  /** Filtering before or after a stable sort gives the same sequence. */
  lemma {:induction false} SortCommutesWithFilter<T>(s: seq<T>, p: T -> bool, rank: T -> Rank)
    ensures SortBy(Filter(s, p), rank) == Filter(SortBy(s, rank), p)
  {
    SortBySorted(Filter(s, p), rank);
    SortBySorted(s, rank);
    FilterSorted(SortBy(s, rank), p, rank);
    forall k ensures SameRank(SortBy(Filter(s, p), rank), rank, k)
                  == SameRank(Filter(SortBy(s, rank), p), rank, k) {
      SortByStable(Filter(s, p), rank, k);
      FilterSameRank(s, p, rank, k);
      FilterSameRank(SortBy(s, rank), p, rank, k);
      SortByStable(s, rank, k);
    }
    SortedUnique(SortBy(Filter(s, p), rank), Filter(SortBy(s, rank), p), rank);
  }
}

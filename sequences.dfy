/** Sequence operations the front end takes from JavaScript arrays: `filter`, the
    destructuring swap `[a[i], a[j]] = [a[j], a[i]]` and `splice(i, 1)`. */
module Sequences {

  /** `s.filter(p)`: the elements of `s` satisfying `p`, in their order in `s`. */
  function Filter<T>(s: seq<T>, p: T -> bool): (r: seq<T>)
    ensures |r| <= |s|
    ensures forall i :: 0 <= i < |r| ==> p(r[i])
    ensures multiset(r) <= multiset(s)
  {
    if |s| == 0 then []
    else
      assert s == [s[0]] + s[1..];
      (if p(s[0]) then [s[0]] else []) + Filter(s[1..], p)
  }

  lemma {:induction false} FilterAppend<T>(a: seq<T>, b: seq<T>, p: T -> bool)
    ensures Filter(a + b, p) == Filter(a, p) + Filter(b, p)
  {
    if |a| > 0 {
      assert (a + b)[1..] == a[1..] + b;
      FilterAppend(a[1..], b, p);
    } else {
      assert a + b == b;
    }
  }

  /** `filter` keeps every occurrence of an element that satisfies `p` and none of one
      that does not. */
  lemma {:induction false} FilterCount<T>(s: seq<T>, p: T -> bool, x: T)
    ensures multiset(Filter(s, p))[x] == if p(x) then multiset(s)[x] else 0
  {
    if |s| > 0 {
      FilterCount(s[1..], p, x);
      assert s == [s[0]] + s[1..];
    }
  }

  lemma FilterAll<T>(s: seq<T>, p: T -> bool)
    requires forall i :: 0 <= i < |s| ==> p(s[i])
    ensures Filter(s, p) == s
  {
    if |s| > 0 {
      FilterAll(s[1..], p);
    }
  }

  /** `filter` returns something when some element satisfies `p`. */
  lemma FilterNonEmpty<T>(s: seq<T>, p: T -> bool)
    ensures (exists i :: 0 <= i < |s| && p(s[i])) ==> |Filter(s, p)| > 0
  {
    if exists i :: 0 <= i < |s| && p(s[i]) {
      var i :| 0 <= i < |s| && p(s[i]);
      FilterCount(s, p, s[i]);
      assert s[i] in multiset(s);
    }
  }

  lemma FilterNone<T>(s: seq<T>, p: T -> bool)
    requires forall i :: 0 <= i < |s| ==> !p(s[i])
    ensures Filter(s, p) == []
  {
    if |s| > 0 {
      FilterNone(s[1..], p);
    }
  }

  /** The indices of `s` below `n` whose element satisfies `p`. */
  function IndicesBelow<T>(s: seq<T>, p: T -> bool, n: nat): set<int>
    requires n <= |s|
  {
    set i | 0 <= i < n && p(s[i])
  }

  /** `filter(p).length` counts the indices whose element satisfies `p`. */
  lemma FilterSize<T>(s: seq<T>, p: T -> bool)
    ensures |Filter(s, p)| == |IndicesBelow(s, p, |s|)|
  {
    FilterSizeBelow(s, p, |s|);
    assert s[..|s|] == s;
  }

  lemma {:induction false} FilterSizeBelow<T>(s: seq<T>, p: T -> bool, n: nat)
    requires n <= |s|
    ensures |Filter(s[..n], p)| == |IndicesBelow(s, p, n)|
  {
    if n > 0 {
      FilterSizeBelow(s, p, n - 1);
      assert s[..n] == s[..n - 1] + [s[n - 1]];
      FilterAppend(s[..n - 1], [s[n - 1]], p);
      assert [s[n - 1]][1..] == [];
      if p(s[n - 1]) {
        assert IndicesBelow(s, p, n) == IndicesBelow(s, p, n - 1) + {n - 1};
      } else {
        assert IndicesBelow(s, p, n) == IndicesBelow(s, p, n - 1);
      }
    } else {
      assert IndicesBelow(s, p, 0) == {};
    }
  }

  /** `s` with the elements at `i` and `j` exchanged. */
  function Swap<T>(s: seq<T>, i: nat, j: nat): (r: seq<T>)
    requires i < |s| && j < |s|
    ensures |r| == |s|
    ensures r[i] == s[j] && r[j] == s[i]
    ensures forall k :: 0 <= k < |s| && k != i && k != j ==> r[k] == s[k]
    ensures multiset(r) == multiset(s)
  {
    s[i := s[j]][j := s[i]]
  }

  /** `s` after `s.splice(i, 1)`. */
  function RemoveAt<T>(s: seq<T>, i: nat): (r: seq<T>)
    requires i < |s|
    ensures |r| == |s| - 1
    ensures forall k :: 0 <= k < i ==> r[k] == s[k]
    ensures forall k :: i <= k < |r| ==> r[k] == s[k + 1]
    ensures multiset(r) + multiset{s[i]} == multiset(s)
  {
    assert s == s[..i] + [s[i]] + s[i + 1..];
    s[..i] + s[i + 1..]
  }
}

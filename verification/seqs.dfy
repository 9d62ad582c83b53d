/** Sequence operations the pages apply to fetched rows: `filter`, a stable
    sort by a numeric key, `slice(0, n)` and a numeric `reduce`. */
module Seqs {

  /** `r` keeps some of the elements of `s`, in the order they have in `s`. */
  ghost predicate IsSubseq<T>(r: seq<T>, s: seq<T>)
    decreases |s|
  {
    if |r| == 0 then true
    else if |s| == 0 then false
    else (r[0] == s[0] && IsSubseq(r[1..], s[1..])) || IsSubseq(r, s[1..])
  }

  /** Ascending in `key` (a descending order is an ascending one in the negated key). */
  ghost predicate SortedBy<T>(s: seq<T>, key: T -> int) {
    forall i, j | 0 <= i < j < |s| :: key(s[i]) <= key(s[j])
  }

  /** `Array.prototype.filter`: the elements that satisfy `p`, in their original order. */
  function Filter<T(!new)>(s: seq<T>, p: T -> bool): (r: seq<T>)
    ensures |r| <= |s|
    ensures forall x :: x in r <==> x in s && p(x)
    ensures IsSubseq(r, s)
    ensures (forall i | 0 <= i < |s| :: p(s[i])) ==> r == s
    ensures forall x :: multiset(r)[x] == if p(x) then multiset(s)[x] else 0
  {
    if |s| == 0 then []
    else
      var rest := Filter(s[1..], p);
      assert forall i | 1 <= i < |s| :: s[i] == s[1..][i - 1];
      assert s == [s[0]] + s[1..];
      assert multiset(s) == multiset([s[0]]) + multiset(s[1..]);
      if p(s[0]) then
        assert multiset([s[0]] + rest) == multiset([s[0]]) + multiset(rest);
        [s[0]] + rest
      else rest
  }

  /** The number of indices of `s` whose element satisfies `p`. */
  ghost function CountIndices<T>(s: seq<T>, p: T -> bool): nat {
    |set i | 0 <= i < |s| && p(s[i])|
  }

  /** `filter` keeps one element per index whose element satisfies `p`, so
      its length is the number of such indices. */
  lemma FilterLength<T(!new)>(s: seq<T>, p: T -> bool)
    ensures |Filter(s, p)| == CountIndices(s, p)
  {
    FilterPrefixLength(s, p, |s|);
    assert s[..|s|] == s;
    assert KeptIndices(s, p, |s|) == set i | 0 <= i < |s| && p(s[i]);
  }

  /** The indices below `n` whose element satisfies `p`. */
  ghost function KeptIndices<T>(s: seq<T>, p: T -> bool, n: nat): set<nat>
    requires n <= |s|
  {
    set i: nat | i < n && p(s[i])
  }

  lemma {:induction false} FilterPrefixLength<T(!new)>(s: seq<T>, p: T -> bool, n: nat)
    requires n <= |s|
    ensures |Filter(s[..n], p)| == |KeptIndices(s, p, n)|
    decreases n
  {
    if n == 0 {
      assert s[..0] == [];
      assert KeptIndices(s, p, 0) == {};
    } else {
      FilterPrefixLength(s, p, n - 1);
      FilterStep(s, p, n);
      IndicesStep(s, p, n);
    }
  }

  /** Extending the prefix by one element adds one kept element exactly when it qualifies. */
  lemma FilterStep<T(!new)>(s: seq<T>, p: T -> bool, n: nat)
    requires 0 < n <= |s|
    ensures |Filter(s[..n], p)| == |Filter(s[..n - 1], p)| + (if p(s[n - 1]) then 1 else 0)
  {
    assert s[..n] == s[..n - 1] + [s[n - 1]];
    FilterAppend(s[..n - 1], [s[n - 1]], p);
    assert [s[n - 1]][1..] == [];
  }

  /** The same step on the index set. */
  lemma IndicesStep<T>(s: seq<T>, p: T -> bool, n: nat)
    requires 0 < n <= |s|
    ensures |KeptIndices(s, p, n)| == |KeptIndices(s, p, n - 1)| + (if p(s[n - 1]) then 1 else 0)
  {
    var a, b := KeptIndices(s, p, n - 1), KeptIndices(s, p, n);
    if p(s[n - 1]) {
      assert b == a + {n - 1};
      assert n - 1 !in a;
    } else {
      assert b == a;
    }
  }

  /** Nothing is kept when no element qualifies. */
  lemma {:induction false} FilterNone<T(!new)>(s: seq<T>, p: T -> bool)
    requires forall i | 0 <= i < |s| :: !p(s[i])
    ensures Filter(s, p) == []
    decreases |s|
  {
    if |s| > 0 {
      FilterNone(s[1..], p);
    }
  }

  /** Filtering distributes over concatenation. */
  lemma {:induction false} FilterAppend<T(!new)>(a: seq<T>, b: seq<T>, p: T -> bool)
    ensures Filter(a + b, p) == Filter(a, p) + Filter(b, p)
    decreases |a|
  {
    if |a| == 0 {
      assert a + b == b;
    } else {
      assert (a + b)[1..] == a[1..] + b;
      FilterAppend(a[1..], b, p);
    }
  }

  /** Keeping a sub-sequence keeps any order the source was in. */
  lemma {:induction false} SubseqKeepsOrder<T>(r: seq<T>, s: seq<T>, key: T -> int)
    requires IsSubseq(r, s)
    requires SortedBy(s, key)
    ensures SortedBy(r, key)
    decreases |s|
  {
    if |r| == 0 {
    } else if r[0] == s[0] && IsSubseq(r[1..], s[1..]) {
      SubseqKeepsOrder(r[1..], s[1..], key);
      SubseqElements(r[1..], s[1..]);
      forall i, j | 0 <= i < j < |r|
        ensures key(r[i]) <= key(r[j])
      {
        if i == 0 {
          assert r[j] == r[1..][j - 1];
          var k :| 0 <= k < |s[1..]| && s[1..][k] == r[j];
          assert s[k + 1] == r[j];
        } else {
          assert r[i] == r[1..][i - 1] && r[j] == r[1..][j - 1];
        }
      }
    } else {
      SubseqKeepsOrder(r, s[1..], key);
    }
  }

  /** Every element of a sub-sequence occurs in the sequence. */
  lemma {:induction false} SubseqElements<T>(r: seq<T>, s: seq<T>)
    requires IsSubseq(r, s)
    ensures forall i | 0 <= i < |r| :: exists k :: 0 <= k < |s| && s[k] == r[i]
    decreases |s|
  {
    if |r| == 0 {
    } else if r[0] == s[0] && IsSubseq(r[1..], s[1..]) {
      SubseqElements(r[1..], s[1..]);
      forall i | 0 <= i < |r|
        ensures exists k :: 0 <= k < |s| && s[k] == r[i]
      {
        if i == 0 {
          assert s[0] == r[0];
        } else {
          assert r[i] == r[1..][i - 1];
          var k :| 0 <= k < |s[1..]| && s[1..][k] == r[i];
          assert s[k + 1] == r[i];
        }
      }
    } else {
      SubseqElements(r, s[1..]);
      forall i | 0 <= i < |r|
        ensures exists k :: 0 <= k < |s| && s[k] == r[i]
      {
        var k :| 0 <= k < |s[1..]| && s[1..][k] == r[i];
        assert s[k + 1] == r[i];
      }
    }
  }

  /** Inserts `x` in front of the first element whose key is not smaller, so
      that in a sorted sequence earlier elements stay ahead of equal keys. */
  function InsertBy<T>(x: T, s: seq<T>, key: T -> int): (r: seq<T>)
    ensures multiset(r) == multiset(s) + multiset{x}
    ensures |r| == |s| + 1
    ensures r[0] == (if |s| == 0 || key(x) <= key(s[0]) then x else s[0])
  {
    if |s| == 0 || key(x) <= key(s[0]) then [x] + s
    else
      assert s == [s[0]] + s[1..];
      [s[0]] + InsertBy(x, s[1..], key)
  }

  /** Inserting into a sorted sequence keeps it sorted. */
  lemma {:induction false} InsertSorted<T>(x: T, s: seq<T>, key: T -> int)
    requires SortedBy(s, key)
    ensures SortedBy(InsertBy(x, s, key), key)
    decreases |s|
  {
    var r := InsertBy(x, s, key);
    if |s| == 0 || key(x) <= key(s[0]) {
      assert forall k | 1 <= k < |r| :: r[k] == s[k - 1];
    } else {
      var rest := InsertBy(x, s[1..], key);
      InsertSorted(x, s[1..], key);
      assert forall k | 1 <= k < |r| :: r[k] == rest[k - 1];
      InsertBounded(x, s[1..], key, key(s[0]));
    }
  }

  /** A lower bound on the keys of `x` and of `s` bounds the result's keys. */
  lemma {:induction false} InsertBounded<T>(x: T, s: seq<T>, key: T -> int, lo: int)
    requires lo <= key(x)
    requires forall k | 0 <= k < |s| :: lo <= key(s[k])
    ensures forall k | 0 <= k < |s| + 1 :: lo <= key(InsertBy(x, s, key)[k])
    decreases |s|
  {
    var r := InsertBy(x, s, key);
    if |s| == 0 || key(x) <= key(s[0]) {
      assert forall k | 1 <= k < |r| :: r[k] == s[k - 1];
    } else {
      var rest := InsertBy(x, s[1..], key);
      InsertBounded(x, s[1..], key, lo);
      assert forall k | 1 <= k < |r| :: r[k] == rest[k - 1];
    }
  }

  /** A stable sort ascending in `key` (ECMAScript requires `Array.prototype.sort` to be stable). */
  function SortBy<T>(s: seq<T>, key: T -> int): (r: seq<T>)
    ensures SortedBy(r, key)
    ensures multiset(r) == multiset(s)
    ensures |r| == |s|
  {
    if |s| == 0 then []
    else
      assert s == [s[0]] + s[1..];
      var rest := SortBy(s[1..], key);
      InsertSorted(s[0], rest, key);
      InsertBy(s[0], rest, key)
  }

  /** Sequences with the same multiset hold the same elements. */
  lemma SameElements<T(!new)>(a: seq<T>, b: seq<T>)
    requires multiset(a) == multiset(b)
    ensures forall x :: x in a <==> x in b
  {
    forall x ensures x in a <==> x in b {
      assert x in a <==> x in multiset(a);
      assert x in b <==> x in multiset(b);
    }
  }

  /** The first position holding a least key. */
  function FirstMinIndex<T>(s: seq<T>, key: T -> int): (i: nat)
    requires |s| > 0
    ensures i < |s|
    ensures forall k | 0 <= k < |s| :: key(s[i]) <= key(s[k])
    ensures forall k | 0 <= k < i :: key(s[i]) < key(s[k])
  {
    if |s| == 1 then 0
    else
      var j := 1 + FirstMinIndex(s[1..], key);
      assert forall k | 1 <= k < |s| :: s[k] == s[1..][k - 1];
      if key(s[0]) <= key(s[j]) then 0 else j
  }

  /** The head of a stable ascending sort is the first element with the least key. */
  lemma {:induction false} SortHead<T>(s: seq<T>, key: T -> int)
    requires |s| > 0
    ensures SortBy(s, key)[0] == s[FirstMinIndex(s, key)]
    decreases |s|
  {
    if |s| > 1 {
      SortHead(s[1..], key);
    }
  }

  /** `reduce((sum, x) => sum + f(x), 0)`. */
  function SumBy<T>(s: seq<T>, f: T -> int): int {
    if |s| == 0 then 0 else f(s[0]) + SumBy(s[1..], f)
  }

  /** Summing distributes over concatenation. */
  lemma {:induction false} SumByAppend<T>(a: seq<T>, b: seq<T>, f: T -> int)
    ensures SumBy(a + b, f) == SumBy(a, f) + SumBy(b, f)
    decreases |a|
  {
    if |a| == 0 {
      assert a + b == b;
    } else {
      assert (a + b)[1..] == a[1..] + b;
      SumByAppend(a[1..], b, f);
    }
  }

  /** `indexOf`: the first position holding `x`, or the length when none does. */
  function IndexOf<T(==)>(s: seq<T>, x: T): (i: nat)
    ensures i <= |s|
    ensures i < |s| <==> x in s
    ensures i < |s| ==> s[i] == x
    ensures forall k | 0 <= k < i :: s[k] != x
  {
    if |s| == 0 then 0
    else if s[0] == x then 0
    else
      var i := IndexOf(s[1..], x);
      assert forall k | 1 <= k < |s| :: s[k] == s[1..][k - 1];
      1 + i
  }

  /** Appending an element moves no first position, and a new element is
      first seen at the end. */
  lemma IndexOfAppend<T>(s: seq<T>, y: T, x: T)
    ensures x in s ==> IndexOf(s + [y], x) == IndexOf(s, x)
    ensures x !in s ==> IndexOf(s + [x], x) == |s|
  {
    var t := s + [y];
    assert forall k | 0 <= k < |s| :: t[k] == s[k];
    if x !in s {
      var u := s + [x];
      assert forall k | 0 <= k < |s| :: u[k] == s[k];
      assert u[|s|] == x;
    }
  }

  /** `slice(0, n)`: the first `n` elements, or all of them when there are fewer. */
  function Take<T>(s: seq<T>, n: nat): (r: seq<T>)
    ensures |r| == if n < |s| then n else |s|
    ensures forall i | 0 <= i < |r| :: r[i] == s[i]
  {
    if n < |s| then s[..n] else s
  }
}

/**
 The slice operations of Rust's standard library that the solvers rely on, over
 `seq<int>`: `sort`, `reverse` and `partition_point`, plus a generic `map`.
 */
module Slices {

  predicate Sorted(s: seq<int>) {
    forall i, j :: 0 <= i < j < |s| ==> s[i] <= s[j]
  }

  /** Inserts `x` into a sorted sequence, before the first element not smaller than it. */
  function Insert(x: int, s: seq<int>): (r: seq<int>)
    requires Sorted(s)
    ensures Sorted(r)
    ensures multiset(r) == multiset(s) + multiset{x}
    ensures |r| == |s| + 1
    ensures r[0] == x || (s != [] && r[0] == s[0])
  {
    if s == [] || x <= s[0] then
      SortedCons(x, s);
      [x] + s
    else
      var tail := Insert(x, s[1..]);
      assert s == [s[0]] + s[1..];
      SortedCons(s[0], tail);
      [s[0]] + tail
  }

  /** A head no larger than the first element of a sorted tail keeps it sorted. */
  lemma SortedCons(h: int, t: seq<int>)
    requires Sorted(t) && (t == [] || h <= t[0])
    ensures Sorted([h] + t)
  {
    var r := [h] + t;
    forall i, j | 0 <= i < j < |r|
      ensures r[i] <= r[j]
    {
      if i > 0 {
        assert r[i] == t[i - 1] && r[j] == t[j - 1];
      } else {
        assert r[j] == t[j - 1];
        assert t[0] <= t[j - 1];
      }
    }
  }

  /** `slice::sort` on integers: the sorted permutation of `s`. */
  function Sort(s: seq<int>): (r: seq<int>)
    ensures Sorted(r)
    ensures multiset(r) == multiset(s)
    ensures |r| == |s|
  {
    if s == [] then []
    else
      assert s == [s[0]] + s[1..];
      Insert(s[0], Sort(s[1..]))
  }

  /** A sorted sequence is determined by its multiset of elements. */
  lemma {:induction false} SortedUnique(a: seq<int>, b: seq<int>)
    requires Sorted(a) && Sorted(b)
    requires multiset(a) == multiset(b)
    ensures a == b
    decreases |a|
  {
    assert |a| == |multiset(a)| == |multiset(b)| == |b|;
    if a != [] {
      assert a[0] in multiset(b) && b[0] in multiset(a);
      HeadIsMinimum(a, b[0]);
      HeadIsMinimum(b, a[0]);
      assert a == [a[0]] + a[1..];
      assert b == [b[0]] + b[1..];
      assert a[0] == b[0];
      assert multiset(a[1..]) == multiset(a) - multiset{a[0]};
      assert multiset(b[1..]) == multiset(b) - multiset{b[0]};
      SortedUnique(a[1..], b[1..]);
    }
  }

  lemma HeadIsMinimum(a: seq<int>, x: int)
    requires Sorted(a) && x in multiset(a)
    ensures a[0] <= x
  {
    assert x in a;
  }

  /** Sorting is invariant under permutation of its input. */
  lemma SortPermutation(a: seq<int>, b: seq<int>)
    requires multiset(a) == multiset(b)
    ensures Sort(a) == Sort(b)
  {
    SortedUnique(Sort(a), Sort(b));
  }

  /** `slice::reverse`. */
  function Reverse(s: seq<int>): (r: seq<int>)
    ensures |r| == |s|
    ensures forall i :: 0 <= i < |s| ==> r[i] == s[|s| - 1 - i]
  {
    if s == [] then [] else Reverse(s[1..]) + [s[0]]
  }

  /** Every element satisfying `p` precedes every element that does not. */
  predicate Partitioned(s: seq<int>, p: int -> bool) {
    forall i, j :: 0 <= i < j < |s| && p(s[j]) ==> p(s[i])
  }

  /**
   `slice::partition_point`: binary search, on a partitioned slice, for the index
   of the first element that does not satisfy `p`.
   */
  function PartitionPoint(s: seq<int>, p: int -> bool): (k: nat)
    requires Partitioned(s, p)
    ensures k <= |s|
    ensures forall i :: 0 <= i < k ==> p(s[i])
    ensures forall i :: k <= i < |s| ==> !p(s[i])
  {
    Bisect(s, p, 0, |s|)
  }

  /** The search window `[lo, hi)`: everything before it satisfies `p`, nothing after it does. */
  function Bisect(s: seq<int>, p: int -> bool, lo: nat, hi: nat): (k: nat)
    requires Partitioned(s, p)
    requires lo <= hi <= |s|
    requires forall i :: 0 <= i < lo ==> p(s[i])
    requires forall i :: hi <= i < |s| ==> !p(s[i])
    ensures lo <= k <= hi
    ensures forall i :: 0 <= i < k ==> p(s[i])
    ensures forall i :: k <= i < |s| ==> !p(s[i])
    decreases hi - lo
  {
    if lo == hi then lo
    else
      var mid := lo + (hi - lo) / 2;
      if p(s[mid]) then Bisect(s, p, mid + 1, hi) else Bisect(s, p, lo, mid)
  }

  /** `iter().map(f).collect()`. */
  function Map<A, B>(f: A -> B, xs: seq<A>): (ys: seq<B>)
    ensures |ys| == |xs|
    ensures forall i :: 0 <= i < |xs| ==> ys[i] == f(xs[i])
  {
    if xs == [] then [] else [f(xs[0])] + Map(f, xs[1..])
  }

  /** Mapping a permutation of `xs` yields a permutation of the mapped sequence. */
  lemma {:induction false} MapPermutation<A, B>(f: A -> B, xs: seq<A>, ys: seq<A>)
    requires multiset(xs) == multiset(ys)
    ensures multiset(Map(f, xs)) == multiset(Map(f, ys))
    decreases |xs|
  {
    assert |xs| == |multiset(xs)| == |ys|;
    if xs != [] {
      var x := xs[0];
      assert x in multiset(ys);
      var k :| 0 <= k < |ys| && ys[k] == x;
      var pre, post := ys[..k], ys[k + 1..];
      assert ys == pre + ([x] + post);
      RemoveOne(xs, pre, post);
      MapPermutation(f, xs[1..], pre + post);
      MapSplit(f, pre, x, post);
      assert multiset(Map(f, xs)) == multiset{f(x)} + multiset(Map(f, xs[1..])) by {
        assert Map(f, xs) == [f(x)] + Map(f, xs[1..]);
      }
    }
  }

  /** Mapping `pre + [x] + post` gives `f(x)` and the mapped rest. */
  lemma MapSplit<A, B>(f: A -> B, pre: seq<A>, x: A, post: seq<A>)
    ensures multiset(Map(f, pre + ([x] + post))) == multiset{f(x)} + multiset(Map(f, pre + post))
  {
    var fpre, fpost := Map(f, pre), Map(f, post);
    assert Map(f, pre + ([x] + post)) == fpre + ([f(x)] + fpost) by {
      MapConcat(f, pre, [x] + post);
      assert Map(f, [x] + post) == [f(x)] + fpost;
    }
    assert Map(f, pre + post) == fpre + fpost by {
      MapConcat(f, pre, post);
    }
  }

  lemma RemoveOne<A>(xs: seq<A>, pre: seq<A>, post: seq<A>)
    requires xs != [] && multiset(xs) == multiset(pre + ([xs[0]] + post))
    ensures multiset(xs[1..]) == multiset(pre + post)
  {
    var x := xs[0];
    assert xs == [x] + xs[1..];
    calc {
      multiset(xs[1..]);
      multiset(xs) - multiset{x};
      multiset(pre + ([x] + post)) - multiset{x};
      (multiset(pre) + multiset{x} + multiset(post)) - multiset{x};
      multiset(pre) + multiset(post);
      multiset(pre + post);
    }
  }

  lemma MapConcat<A, B>(f: A -> B, a: seq<A>, b: seq<A>)
    ensures Map(f, a + b) == Map(f, a) + Map(f, b)
  {
  }
}

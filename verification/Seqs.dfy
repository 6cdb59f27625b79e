/** Sequence helpers: the LINQ 'Where' and 'Select', SQL LIMIT, and their laws. */
module Seqs {

  /** Keeps the elements satisfying 'p', in order. */
  function Filter<T(!new)>(xs: seq<T>, p: T -> bool): (r: seq<T>)
    ensures |r| <= |xs|
    ensures forall x :: x in r <==> x in xs && p(x)
  {
    if xs == [] then []
    else if p(xs[0]) then [xs[0]] + Filter(xs[1..], p)
    else Filter(xs[1..], p)
  }

  /** A filter keeps each passing element as often as the input holds it, and drops the rest. */
  lemma {:induction false} FilterMultiset<T(!new)>(xs: seq<T>, p: T -> bool)
    ensures forall x :: multiset(Filter(xs, p))[x] == if p(x) then multiset(xs)[x] else 0
  {
    if xs != [] {
      FilterMultiset(xs[1..], p);
      assert xs == [xs[0]] + xs[1..];
    }
  }

  lemma {:induction false} FilterAppend<T(!new)>(xs: seq<T>, ys: seq<T>, p: T -> bool)
    ensures Filter(xs + ys, p) == Filter(xs, p) + Filter(ys, p)
  {
    if xs == [] {
      assert xs + ys == ys;
    } else {
      assert (xs + ys)[1..] == xs[1..] + ys;
      FilterAppend(xs[1..], ys, p);
    }
  }

  /** Filtering twice is filtering once by the conjunction. */
  lemma {:induction false} FilterFilter<T(!new)>(xs: seq<T>, p: T -> bool, q: T -> bool, pq: T -> bool)
    requires forall x :: pq(x) == (p(x) && q(x))
    ensures Filter(Filter(xs, p), q) == Filter(xs, pq)
  {
    if xs != [] {
      FilterFilter(xs[1..], p, q, pq);
    }
  }

  /** A filter that no element passes leaves nothing. */
  lemma {:induction false} FilterNone<T(!new)>(xs: seq<T>, p: T -> bool)
    requires forall x :: x in xs ==> !p(x)
    ensures Filter(xs, p) == []
  {
    if xs != [] {
      FilterNone(xs[1..], p);
    }
  }

  /** The first 'n' elements, or all of them when there are fewer (SQL LIMIT). */
  function Take<T>(xs: seq<T>, n: nat): (r: seq<T>)
    ensures |r| == if n < |xs| then n else |xs|
    ensures forall i :: 0 <= i < |r| ==> r[i] == xs[i]
  {
    if n < |xs| then xs[..n] else xs
  }

  /** A non-empty sequence is its front and its last element. */
  lemma SnocParts<T>(s: seq<T>)
    requires s != []
    ensures s == s[..|s| - 1] + [s[|s| - 1]]
    ensures forall i :: 0 <= i < |s| - 1 ==> s[..|s| - 1][i] == s[i]
  {
  }

  /** Concatenation is associative. */
  lemma AppendAssoc<T>(a: seq<T>, b: seq<T>, c: seq<T>)
    ensures (a + b) + c == a + (b + c)
  {
  }

  /** The LINQ 'Select': 'f' applied to every element, in order. */
  function Map<A, B>(f: A -> B, xs: seq<A>): (r: seq<B>)
    ensures |r| == |xs|
    ensures forall i :: 0 <= i < |xs| ==> r[i] == f(xs[i])
  {
    seq(|xs|, i requires 0 <= i < |xs| => f(xs[i]))
  }

  lemma MapSnoc<A, B>(f: A -> B, xs: seq<A>)
    requires xs != []
    ensures Map(f, xs) == Map(f, xs[..|xs| - 1]) + [f(xs[|xs| - 1])]
  {
    var n := |xs| - 1;
    var a, b := Map(f, xs), Map(f, xs[..n]) + [f(xs[n])];
    forall i | 0 <= i < |a| ensures a[i] == b[i] {
      if i < n { assert xs[..n][i] == xs[i]; }
    }
  }

  /** A relation holding position by position between two sequences keeps holding when each grows by one related pair. */
  lemma PairwiseSnoc<A, B>(xs: seq<A>, ys: seq<B>, x: A, y: B, rel: (nat, A, B) -> bool)
    requires |xs| == |ys| && rel(|xs|, x, y)
    requires forall k :: 0 <= k < |xs| ==> rel(k, xs[k], ys[k])
    ensures forall k :: 0 <= k < |xs| + 1 ==> rel(k, (xs + [x])[k], (ys + [y])[k])
  {
    forall k | 0 <= k < |xs| + 1 ensures rel(k, (xs + [x])[k], (ys + [y])[k]) {
      if k < |xs| { assert (xs + [x])[k] == xs[k] && (ys + [y])[k] == ys[k]; }
    }
  }

  /** 'xs' occurs in 'ys' in order, possibly with gaps. */
  predicate IsSubsequence<T(==)>(xs: seq<T>, ys: seq<T>)
    decreases |ys|
  {
    xs == [] || (ys != [] && if xs[0] == ys[0] then IsSubsequence(xs[1..], ys[1..]) else IsSubsequence(xs, ys[1..]))
  }

  /** Putting more in front of the longer sequence keeps a subsequence one. */
  lemma {:induction false} SubsequenceWeaken<T>(xs: seq<T>, ys: seq<T>)
    requires ys != [] && IsSubsequence(xs, ys[1..])
    ensures IsSubsequence(xs, ys)
    decreases |ys|, 0
  {
    if xs != [] && xs[0] == ys[0] {
      SubsequenceDropFirst(xs, ys[1..]);
    }
  }

  lemma {:induction false} SubsequenceDropFirst<T>(xs: seq<T>, ys: seq<T>)
    requires xs != [] && IsSubsequence(xs, ys)
    ensures IsSubsequence(xs[1..], ys)
    decreases |ys|, 1
  {
    if xs[0] == ys[0] {
      SubsequenceWeaken(xs[1..], ys);
    } else {
      SubsequenceDropFirst(xs, ys[1..]);
      SubsequenceWeaken(xs[1..], ys);
    }
  }

  /** A filter keeps its survivors in their original order. */
  lemma {:induction false} FilterIsSubsequence<T(!new)>(xs: seq<T>, p: T -> bool)
    ensures IsSubsequence(Filter(xs, p), xs)
  {
    if xs != [] {
      FilterIsSubsequence(xs[1..], p);
      if !p(xs[0]) {
        SubsequenceWeaken(Filter(xs[1..], p), xs);
      }
    }
  }
}

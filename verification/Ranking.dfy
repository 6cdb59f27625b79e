/**
 * The meaning of the vector search statement
 *   SELECT ... WHERE <keep> AND <score> > @min ORDER BY <score> DESC LIMIT @limit
 * over a sequence of rows, with the score of each row given.
 *
 * SQL leaves the order of equal scores open. The model picks one admissible
 * order, stable with respect to storage order ('SortDesc'); what the statement
 * itself guarantees, whatever order the engine picks, is 'IsRanked'.
 */
module Ranking {
  import opened Seqs

  /** Non-increasing in score. */
  ghost predicate SortedDesc<T>(s: seq<T>, score: T -> real)
  {
    forall i, j :: 0 <= i < j < |s| ==> score(s[i]) >= score(s[j])
  }

  /** Inserts 'x' before the first element it is not below. */
  function Insert<T>(x: T, s: seq<T>, score: T -> real): (r: seq<T>)
    ensures |r| == |s| + 1
    ensures multiset(r) == multiset(s) + multiset{x}
  {
    if s == [] || score(x) >= score(s[0]) then [x] + s
    else
      assert s == [s[0]] + s[1..];
      [s[0]] + Insert(x, s[1..], score)
  }

  lemma SortedTail<T>(s: seq<T>, score: T -> real)
    requires s != [] && SortedDesc(s, score)
    ensures SortedDesc(s[1..], score)
    ensures forall y :: y in s ==> score(y) <= score(s[0])
  {
    forall i, j | 0 <= i < j < |s| - 1
      ensures score(s[1..][i]) >= score(s[1..][j])
    {
      assert s[1..][i] == s[i + 1] && s[1..][j] == s[j + 1];
    }
  }

  /** An element scoring at least as high as every element of a sorted sequence may go in front. */
  lemma ConsSorted<T>(y: T, t: seq<T>, score: T -> real)
    requires SortedDesc(t, score)
    requires forall z :: z in t ==> score(z) <= score(y)
    ensures SortedDesc([y] + t, score)
  {
    var r := [y] + t;
    forall i, j | 0 <= i < j < |r|
      ensures score(r[i]) >= score(r[j])
    {
      assert r[j] == t[j - 1];
      if i > 0 {
        assert r[i] == t[i - 1];
      } else {
        assert t[j - 1] in t;
      }
    }
  }

  lemma {:induction false} InsertSorted<T>(x: T, s: seq<T>, score: T -> real)
    requires SortedDesc(s, score)
    ensures SortedDesc(Insert(x, s, score), score)
  {
    if s == [] || score(x) >= score(s[0]) {
      if s != [] {
        SortedTail(s, score);
      }
      ConsSorted(x, s, score);
    } else {
      SortedTail(s, score);
      var t := Insert(x, s[1..], score);
      InsertSorted(x, s[1..], score);
      forall y | y in t
        ensures score(y) <= score(s[0])
      {
        assert y in multiset(s[1..]) + multiset{x};
        if y != x {
          assert y in s[1..];
        }
      }
      ConsSorted(s[0], t, score);
    }
  }

  /** ORDER BY score DESC: a stable insertion sort. */
  function SortDesc<T>(xs: seq<T>, score: T -> real): (r: seq<T>)
    ensures |r| == |xs| && multiset(r) == multiset(xs)
  {
    if xs == [] then []
    else
      assert xs == [xs[0]] + xs[1..];
      Insert(xs[0], SortDesc(xs[1..], score), score)
  }

  /** The sort's output is ordered, by the sortedness of every insertion. */
  lemma {:induction false} SortDescSorted<T>(xs: seq<T>, score: T -> real)
    ensures SortedDesc(SortDesc(xs, score), score)
  {
    if xs != [] {
      SortDescSorted(xs[1..], score);
      InsertSorted(xs[0], SortDesc(xs[1..], score), score);
    }
  }

  lemma {:induction false} FilterInsertSkip<T(!new)>(x: T, s: seq<T>, score: T -> real, p: T -> bool)
    requires !p(x)
    ensures Filter(Insert(x, s, score), p) == Filter(s, p)
  {
    if s != [] && score(x) < score(s[0]) {
      FilterInsertSkip(x, s[1..], score, p);
      assert Insert(x, s, score)[1..] == Insert(x, s[1..], score);
    } else {
      assert ([x] + s)[1..] == s;
    }
  }

  lemma FilterCons<T(!new)>(x: T, s: seq<T>, p: T -> bool)
    ensures Filter([x] + s, p) == if p(x) then [x] + Filter(s, p) else Filter(s, p)
  {
    assert ([x] + s)[0] == x && ([x] + s)[1..] == s;
  }

  /** An element that goes first goes first in the filtered sequence too. */
  lemma FilterInsertFront<T(!new)>(x: T, s: seq<T>, score: T -> real, p: T -> bool)
    requires p(x) && SortedDesc(s, score)
    requires s == [] || score(x) >= score(s[0])
    ensures Filter(Insert(x, s, score), p) == Insert(x, Filter(s, p), score)
  {
    var f := Filter(s, p);
    assert Insert(x, s, score) == [x] + s;
    FilterCons(x, s, p);
    if f != [] {
      SortedTail(s, score);
      assert f[0] in s;
    }
  }

  lemma {:induction false} FilterInsertKeep<T(!new)>(x: T, s: seq<T>, score: T -> real, p: T -> bool)
    requires p(x) && SortedDesc(s, score)
    ensures Filter(Insert(x, s, score), p) == Insert(x, Filter(s, p), score)
  {
    if s == [] || score(x) >= score(s[0]) {
      FilterInsertFront(x, s, score, p);
    } else {
      var f := Filter(s, p);
      var t := Insert(x, s[1..], score);
      SortedTail(s, score);
      assert s == [s[0]] + s[1..];
      FilterCons(s[0], s[1..], p);
      assert Insert(x, s, score) == [s[0]] + t;
      FilterCons(s[0], t, p);
      FilterInsertKeep(x, s[1..], score, p);
      if p(s[0]) {
        assert Insert(x, f, score) == [s[0]] + Insert(x, f[1..], score);
      }
    }
  }

  /** Sorting commutes with filtering: WHERE and ORDER BY may be applied in either order. */
  lemma {:induction false} SortFilterCommute<T(!new)>(xs: seq<T>, score: T -> real, p: T -> bool)
    ensures SortDesc(Filter(xs, p), score) == Filter(SortDesc(xs, score), p)
  {
    if xs != [] {
      SortFilterCommute(xs[1..], score, p);
      SortDescSorted(xs[1..], score);
      if p(xs[0]) {
        assert Filter(xs, p) == [xs[0]] + Filter(xs[1..], p);
        FilterInsertKeep(xs[0], SortDesc(xs[1..], score), score, p);
      } else {
        FilterInsertSkip(xs[0], SortDesc(xs[1..], score), score, p);
      }
    }
  }

  /** In a sorted sequence the elements above a threshold form a prefix. */
  lemma {:induction false} AboveIsPrefix<T(!new)>(s: seq<T>, score: T -> real, t: real)
    requires SortedDesc(s, score)
    ensures Filter(s, Above(score, t)) <= s
  {
    if s != [] {
      SortedTail(s, score);
      AboveIsPrefix(s[1..], score, t);
      if score(s[0]) <= t {
        assert forall x :: x in s[1..] ==> score(x) <= t;
        assert Filter(s[1..], Above(score, t)) == [];
      }
    }
  }

  /** 'score > t' */
  function Above<T>(score: T -> real, t: real): T -> bool
  {
    x => score(x) > t
  }

  /** The whole WHERE clause: 'keep AND score > min'. */
  function Passes<T>(keep: T -> bool, score: T -> real, min: real): T -> bool
  {
    x => keep(x) && score(x) > min
  }

  /** The rows the WHERE clause lets through, in storage order. */
  function Candidates<T(!new)>(rows: seq<T>, keep: T -> bool, score: T -> real, min: real): seq<T>
  {
    Filter(rows, Passes(keep, score, min))
  }

  /** The statement's result: rows passing 'keep' and scoring above 'min', best first, at most 'limit'. */
  function Select<T(!new)>(rows: seq<T>, keep: T -> bool, score: T -> real, min: real, limit: nat): seq<T>
  {
    Take(SortDesc(Candidates(rows, keep, score, min), score), limit)
  }

  /**
   * What the statement guarantees in any tie order: as many rows as the limit
   * allows, each a candidate (no row twice more than stored), best first, and no
   * candidate left out that beats one returned.
   */
  ghost predicate IsRanked<T(!new)>(r: seq<T>, candidates: seq<T>, score: T -> real, limit: nat)
  {
    && |r| == (if limit < |candidates| then limit else |candidates|)
    && multiset(r) <= multiset(candidates)
    && SortedDesc(r, score)
    && forall x, y :: x in multiset(candidates) - multiset(r) && y in r ==> score(x) <= score(y)
  }

  lemma SplitMultiset<T>(l: seq<T>, n: nat)
    requires n <= |l|
    ensures multiset(l[..n]) <= multiset(l)
    ensures multiset(l) - multiset(l[..n]) == multiset(l[n..])
  {
    assert l == l[..n] + l[n..];
  }

  lemma PrefixBeatsRest<T>(l: seq<T>, score: T -> real, n: nat, x: T, y: T)
    requires SortedDesc(l, score) && n <= |l|
    requires x in l[n..] && y in l[..n]
    ensures score(x) <= score(y)
  {
    var j :| n <= j < |l| && l[j] == x;
    var i :| 0 <= i < n && l[i] == y;
  }

  /** The first 'limit' of a sorted sequence are ranked among all of it. */
  lemma TakeSortedRanked<T(!new)>(l: seq<T>, score: T -> real, limit: nat)
    requires SortedDesc(l, score)
    ensures IsRanked(Take(l, limit), l, score, limit)
  {
    var r := Take(l, limit);
    var n := |r|;
    assert r == l[..n];
    SplitMultiset(l, n);
    forall x, y | x in multiset(l) - multiset(r) && y in r
      ensures score(x) <= score(y)
    {
      assert x in multiset(l[n..]);
      PrefixBeatsRest(l, score, n, x, y);
    }
    forall i, j | 0 <= i < j < |r|
      ensures score(r[i]) >= score(r[j])
    {
      assert r[i] == l[i] && r[j] == l[j];
    }
  }

  /** The first of a ranked answer scores at least as high as every candidate. */
  lemma RankedFirstIsBest<T(!new)>(r: seq<T>, candidates: seq<T>, score: T -> real, limit: nat, x: T)
    requires IsRanked(r, candidates, score, limit) && limit >= 1 && x in candidates
    ensures |r| >= 1 && score(x) <= score(r[0])
  {
    assert |candidates| >= 1;
    if x in multiset(r) {
      var k :| 0 <= k < |r| && r[k] == x;
      if k > 0 {
        assert score(r[0]) >= score(r[k]);
      }
    } else {
      assert x in multiset(candidates) - multiset(r);
      assert r[0] in r;
    }
  }

  /** The modelled order is one the statement admits. */
  lemma SelectIsRanked<T(!new)>(rows: seq<T>, keep: T -> bool, score: T -> real, min: real, limit: nat)
    ensures IsRanked(Select(rows, keep, score, min, limit), Candidates(rows, keep, score, min), score, limit)
  {
    var q := Candidates(rows, keep, score, min);
    var l := SortDesc(q, score);
    SortDescSorted(q, score);
    TakeSortedRanked(l, score, limit);
  }

  /** Every returned row passes the filter. */
  lemma SelectKeeps<T(!new)>(rows: seq<T>, keep: T -> bool, score: T -> real, min: real, limit: nat, x: T)
    requires x in Select(rows, keep, score, min, limit)
    ensures x in rows && keep(x) && score(x) > min
  {
    var q := Candidates(rows, keep, score, min);
    assert x in multiset(SortDesc(q, score));
  }

  /** The statement's candidates, sorted, are the sorted keepers cut at the threshold. */
  lemma SortedCandidates<T(!new)>(rows: seq<T>, keep: T -> bool, score: T -> real, t: real)
    ensures SortDesc(Candidates(rows, keep, score, t), score)
         == Filter(SortDesc(Filter(rows, keep), score), Above(score, t))
  {
    FilterFilter(rows, keep, Above(score, t), Passes(keep, score, t));
    SortFilterCommute(Filter(rows, keep), score, Above(score, t));
  }

  /**
   * Raising the threshold can only cut the result short: with the same limit,
   * the answer at a higher threshold is a prefix of the answer at a lower one.
   */
  lemma ThresholdMonotone<T(!new)>(rows: seq<T>, keep: T -> bool, score: T -> real, lo: real, hi: real, limit: nat)
    requires lo <= hi
    ensures Select(rows, keep, score, hi, limit) <= Select(rows, keep, score, lo, limit)
  {
    var sorted := SortDesc(Filter(rows, keep), score);
    SortDescSorted(Filter(rows, keep), score);
    SortedCandidates(rows, keep, score, lo);
    SortedCandidates(rows, keep, score, hi);
    var pLo := Filter(sorted, Above(score, lo));
    var pHi := Filter(sorted, Above(score, hi));
    AboveIsPrefix(sorted, score, lo);
    AboveIsPrefix(sorted, score, hi);
    FilterFilter(sorted, Above(score, lo), Above(score, hi), Above(score, hi));
    assert |pHi| <= |pLo|;
    assert pHi <= pLo;
  }
}

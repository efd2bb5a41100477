/** Sequence helpers shared by the curation modules. */
module Seqs {

  /** The concatenation of a sequence of sequences. */
  function Flatten<T>(ss: seq<seq<T>>): seq<T>
  {
    if ss == [] then [] else ss[0] + Flatten(ss[1..])
  }

  /** `[x for x in s if p(x)]`. */
  function Filter<T(!new)>(s: seq<T>, p: T -> bool): (r: seq<T>)
    ensures |r| <= |s|
    ensures forall i :: 0 <= i < |r| ==> p(r[i])
    ensures forall x :: x in r <==> x in s && p(x)
  {
    if s == [] then []
    else
      var front := Filter(s[..|s| - 1], p);
      assert forall x :: x in s <==> x in s[..|s| - 1] || x == s[|s| - 1];
      if p(s[|s| - 1]) then front + [s[|s| - 1]] else front
  }

  /** A filter and its complement split a sequence without losing or adding an element. */
  lemma {:induction false} FilterSplit<T(!new)>(s: seq<T>, p: T -> bool)
    ensures multiset(Filter(s, p)) + multiset(Filter(s, y => !p(y))) == multiset(s)
  {
    if s != [] {
      var front, x := s[..|s| - 1], s[|s| - 1];
      FilterSplit(front, p);
      assert s == front + [x];
      assert multiset(s) == multiset(front) + multiset{x};
      if p(x) {
        assert Filter(s, p) == Filter(front, p) + [x];
        assert Filter(s, y => !p(y)) == Filter(front, y => !p(y));
      } else {
        assert Filter(s, p) == Filter(front, p);
        assert Filter(s, y => !p(y)) == Filter(front, y => !p(y)) + [x];
      }
    }
  }

  /** `idx` gives, in strictly increasing order, a position of `s` for each
      element of `r`: `r` is a subsequence of `s`. */
  ghost predicate Embedding<T>(r: seq<T>, s: seq<T>, idx: seq<nat>)
  {
    && |idx| == |r|
    && (forall i :: 0 <= i < |idx| ==> idx[i] < |s| && s[idx[i]] == r[i])
    && (forall i, j :: 0 <= i < j < |idx| ==> idx[i] < idx[j])
  }

  /** The positions the filter keeps: its result is a subsequence of its input. */
  lemma {:induction false} FilterPositions<T(!new)>(s: seq<T>, p: T -> bool) returns (idx: seq<nat>)
    ensures Embedding(Filter(s, p), s, idx)
  {
    if s == [] {
      idx := [];
    } else {
      var front := s[..|s| - 1];
      var kept := FilterPositions(front, p);
      assert forall k :: 0 <= k < |front| ==> front[k] == s[k];
      idx := if p(s[|s| - 1]) then kept + [|s| - 1] else kept;
    }
  }

  /** A filter keeps the relative order of the elements it keeps. */
  lemma {:induction false} FilterKeepsOrder<T(!new)>(s: seq<T>, p: T -> bool, i: nat, j: nat)
    requires i < j < |Filter(s, p)|
    ensures exists a, b :: 0 <= a < b < |s| && s[a] == Filter(s, p)[i] && s[b] == Filter(s, p)[j]
  {
    var front := s[..|s| - 1];
    var f := Filter(front, p);
    assert forall k :: 0 <= k < |front| ==> front[k] == s[k];
    if j < |f| {
      FilterKeepsOrder(front, p, i, j);
      var a, b :| 0 <= a < b < |front| && front[a] == f[i] && front[b] == f[j];
      assert s[a] == Filter(s, p)[i] && s[b] == Filter(s, p)[j];
    } else {
      assert Filter(s, p)[j] == s[|s| - 1];
      assert f[i] in front;
      var a :| 0 <= a < |front| && front[a] == f[i];
      assert s[a] == Filter(s, p)[i];
    }
  }

  /** Filtering a prefix one element longer adds that element when it passes. */
  lemma FilterStep<T(!new)>(s: seq<T>, p: T -> bool, j: nat)
    requires j < |s|
    ensures Filter(s[..j + 1], p) == Filter(s[..j], p) + (if p(s[j]) then [s[j]] else [])
  {
    assert s[..j + 1][..j] == s[..j];
  }

  /** Two conditions that agree everywhere filter alike. */
  lemma {:induction false} FilterSameCondition<T(!new)>(s: seq<T>, p: T -> bool, q: T -> bool)
    requires forall x :: p(x) == q(x)
    ensures Filter(s, p) == Filter(s, q)
  {
    if s != [] {
      FilterSameCondition(s[..|s| - 1], p, q);
    }
  }
}

/** Sequence helpers shared by the batching model and the source-list formatter. */
module Seqs {

  /** The parts joined end to end, in order (Python's `"".join(parts)` or `sum(parts, [])`). */
  function Concat<T>(parts: seq<seq<T>>): seq<T>
  {
    if |parts| == 0 then [] else Concat(parts[..|parts| - 1]) + parts[|parts| - 1]
  }

  lemma ConcatSnoc<T>(parts: seq<seq<T>>, last: seq<T>)
    ensures Concat(parts + [last]) == Concat(parts) + last
  {
    assert (parts + [last])[..|parts|] == parts;
  }

  /** Part j of parts is the slice of s between cuts j and j + 1. */
  ghost predicate SliceAt<T>(s: seq<T>, parts: seq<seq<T>>, bounds: seq<nat>, j: int)
    requires 0 <= j < |parts| && |bounds| == |parts| + 1
  {
    bounds[j] <= bounds[j + 1] <= |s| && parts[j] == s[bounds[j]..bounds[j + 1]]
  }

  /** Consecutive slices of s, cut at increasing bounds from 0, join to the prefix up to the last bound. */
  lemma {:induction false} ConcatOfSlices<T>(s: seq<T>, parts: seq<seq<T>>, bounds: seq<nat>)
    requires |bounds| == |parts| + 1
    requires bounds[0] == 0 && bounds[|parts|] <= |s|
    requires forall j :: 0 <= j < |parts| ==> SliceAt(s, parts, bounds, j)
    ensures Concat(parts) == s[..bounds[|parts|]]
  {
    var n := |parts|;
    if n > 0 {
      var init, cuts := parts[..n - 1], bounds[..n];
      var lo, hi := bounds[n - 1], bounds[n];
      assert SliceAt(s, parts, bounds, n - 1);
      forall j | 0 <= j < n - 1
        ensures SliceAt(s, init, cuts, j)
      {
        assert SliceAt(s, parts, bounds, j);
      }
      ConcatOfSlices(s, init, cuts);
      assert Concat(parts) == Concat(init) + parts[n - 1];
      assert s[..hi] == s[..lo] + s[lo..hi];
    }
  }

  /** When every part holds exactly one copy of x, the concatenation holds one copy per part. */
  lemma {:induction false} ConcatOneEach<T>(parts: seq<seq<T>>, x: T)
    requires forall i :: 0 <= i < |parts| ==> multiset(parts[i])[x] == 1
    ensures multiset(Concat(parts))[x] == |parts|
  {
    if |parts| > 0 {
      var init := parts[..|parts| - 1];
      ConcatOneEach(init, x);
      assert Concat(parts) == Concat(init) + parts[|parts| - 1];
      assert multiset(Concat(parts)) == multiset(Concat(init)) + multiset(parts[|parts| - 1]);
    }
  }

  /** No element occurs twice. */
  ghost predicate Distinct<T>(q: seq<T>)
  {
    forall i, j :: 0 <= i < j < |q| ==> q[i] != q[j]
  }

  /** A sequence whose every element occurs at most once in its multiset has no repeated element. */
  lemma MultiplicityOneIsDistinct<T>(q: seq<T>)
    requires forall x :: multiset(q)[x] <= 1
    ensures Distinct(q)
  {
    forall i, j | 0 <= i < j < |q|
      ensures q[i] != q[j]
    {
      assert q == q[..i] + [q[i]] + q[i + 1..j] + [q[j]] + q[j + 1..];
      assert multiset(q)[q[i]] >= 1 + multiset([q[j]])[q[i]];
    }
  }

  /** A repetition-free sequence holds each of its elements exactly once. */
  lemma {:induction false} DistinctHasMultiplicityOne<T>(q: seq<T>)
    requires Distinct(q)
    ensures forall x :: multiset(q)[x] <= 1
  {
    if |q| > 0 {
      var init := q[..|q| - 1];
      var last := q[|q| - 1];
      DistinctHasMultiplicityOne(init);
      assert q == init + [last];
      assert forall k :: 0 <= k < |init| ==> init[k] == q[k] && q[k] != last;
      assert last !in init;
      assert multiset(q) == multiset(init) + multiset{last};
    }
  }

  /** Two sequences with the same multiset agree on being repetition-free. */
  lemma PermutationKeepsDistinct<T>(p: seq<T>, q: seq<T>)
    requires multiset(p) == multiset(q)
    requires Distinct(p)
    ensures Distinct(q)
  {
    DistinctHasMultiplicityOne(p);
    MultiplicityOneIsDistinct(q);
  }

  /** The first i elements of a repetition-free sequence form a set of i members. */
  lemma {:induction false} PrefixSetSize<T>(q: seq<T>, i: nat)
    requires Distinct(q)
    requires i <= |q|
    ensures |set j | 0 <= j < i :: q[j]| == i
  {
    if i > 0 {
      PrefixSetSize(q, i - 1);
      var before := set j | 0 <= j < i - 1 :: q[j];
      assert (set j | 0 <= j < i :: q[j]) == before + {q[i - 1]};
      assert q[i - 1] !in before;
    }
  }
}

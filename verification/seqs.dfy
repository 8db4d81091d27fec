/** Facts about sequences of record ids: ordering, filtering and counting. */
module Seqs {

  /** Strictly ascending, hence also free of repetitions. */
  ghost predicate Increasing(xs: seq<nat>) {
    forall a, b :: 0 <= a < b < |xs| ==> xs[a] < xs[b]
  }

  /** No element occurs twice. */
  ghost predicate NoDuplicates<T>(xs: seq<T>) {
    forall a, b :: 0 <= a < b < |xs| ==> xs[a] != xs[b]
  }

  /** The ids in `xs` satisfying `p`, in their original order. */
  function Filter(xs: seq<nat>, p: nat -> bool): (r: seq<nat>)
    ensures |r| <= |xs|
    ensures forall x :: x in r <==> x in xs && p(x)
    decreases |xs|
  {
    if xs == [] then []
    else if p(xs[0]) then [xs[0]] + Filter(xs[1..], p)
    else Filter(xs[1..], p)
  }

  /** Filtering keeps the relative order: a filtered ascending sequence is still ascending. */
  lemma {:induction false} FilterKeepsIncreasing(xs: seq<nat>, p: nat -> bool)
    requires Increasing(xs)
    ensures Increasing(Filter(xs, p))
    decreases |xs|
  {
    if xs != [] {
      var tail := xs[1..];
      FilterKeepsIncreasing(tail, p);
      var rest := Filter(tail, p);
      if p(xs[0]) {
        forall k | 0 <= k < |tail|
          ensures xs[0] < tail[k]
        {
          assert tail[k] == xs[k + 1];
        }
        var r := [xs[0]] + rest;
        assert r == Filter(xs, p);
        forall a, b | 0 <= a < b < |r|
          ensures r[a] < r[b]
        {
          assert r[b] == rest[b - 1] && rest[b - 1] in tail;
          if 0 < a {
            assert r[a] == rest[a - 1];
          }
        }
      }
    }
  }

  /** Appending an id larger than every present one keeps the sequence ascending. */
  lemma AppendKeepsIncreasing(xs: seq<nat>, x: nat)
    requires Increasing(xs)
    requires forall y :: y in xs ==> y < x
    ensures Increasing(xs + [x])
  {
    var r := xs + [x];
    forall a, b | 0 <= a < b < |r|
      ensures r[a] < r[b]
    {
      assert r[a] == xs[a] && xs[a] in xs;
    }
  }

  /** The set of elements of `xs`. */
  ghost function Elements(xs: seq<nat>): (r: set<nat>)
    ensures forall x :: x in r <==> x in xs
    decreases |xs|
  {
    if xs == [] then {} else {xs[0]} + Elements(xs[1..])
  }

  /** An ascending sequence lists each element of its set exactly once. */
  lemma {:induction false} IncreasingCardinality(xs: seq<nat>)
    requires Increasing(xs)
    ensures |Elements(xs)| == |xs|
    decreases |xs|
  {
    if xs != [] {
      var tail := xs[1..];
      IncreasingCardinality(tail);
      assert xs[0] !in tail by {
        forall k | 0 <= k < |tail|
          ensures tail[k] != xs[0]
        {
          assert tail[k] == xs[k + 1];
        }
      }
      assert xs[0] !in Elements(tail);
    }
  }
}

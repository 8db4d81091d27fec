/** `Entry.add_tag` and `Entry.remove_tag`: guarded insert into and delete
    from an entry's tag list, reporting whether anything changed. */
module EntryTags {
  import opened Wrappers
  import opened Seqs
  import opened Tables

  /** `xs` without the first occurrence of `x`; `xs` itself when `x` does not occur. */
  function RemoveFirst(xs: seq<Id>, x: Id): (r: seq<Id>)
    ensures x in xs ==> |r| == |xs| - 1
    ensures x !in xs ==> r == xs
    decreases |xs|
  {
    if xs == [] then []
    else if xs[0] == x then xs[1..]
    else [xs[0]] + RemoveFirst(xs[1..], x)
  }

  /** `RemoveFirst` takes away one `x` and keeps every other element. */
  lemma {:induction false} RemoveFirstMultiset(xs: seq<Id>, x: Id)
    ensures multiset(RemoveFirst(xs, x)) == multiset(xs) - multiset{x}
    decreases |xs|
  {
    if xs != [] {
      assert xs == [xs[0]] + xs[1..];
      if xs[0] != x {
        RemoveFirstMultiset(xs[1..], x);
      }
    }
  }

  /** The first index holding `x`. */
  function IndexOf(xs: seq<Id>, x: Id): (i: nat)
    requires x in xs
    ensures i < |xs| && xs[i] == x && x !in xs[..i]
    decreases |xs|
  {
    if xs[0] == x then 0 else 1 + IndexOf(xs[1..], x)
  }

  /** `ys` is `xs` with the first occurrence of `x` cut out and everything
      else kept in order. */
  predicate CutsFirst(xs: seq<Id>, x: Id, ys: seq<Id>) {
    x in xs && ys == xs[..IndexOf(xs, x)] + xs[IndexOf(xs, x) + 1..]
  }

  /** `RemoveFirst` cuts out exactly the element at the first index holding `x`;
      everything before and after keeps its order. */
  lemma {:induction false} RemoveFirstCutsFirstOccurrence(xs: seq<Id>, x: Id)
    requires x in xs
    ensures RemoveFirst(xs, x) == xs[..IndexOf(xs, x)] + xs[IndexOf(xs, x) + 1..]
    decreases |xs|
  {
    if xs[0] == x {
      assert xs[..0] == [];
    } else {
      var tail := xs[1..];
      RemoveFirstCutsFirstOccurrence(tail, x);
      var i := IndexOf(tail, x);
      assert IndexOf(xs, x) == i + 1;
      assert RemoveFirst(xs, x) == [xs[0]] + (tail[..i] + tail[i + 1..]);
      assert xs[..i + 1] == [xs[0]] + tail[..i];
      assert xs[i + 2..] == tail[i + 1..];
    }
  }

  /** Python's `list.remove(x)`: the first occurrence of `x` is cut out;
      `None` stands for the `ValueError` it raises when `x` is absent. */
  function ListRemove(xs: seq<Id>, x: Id): (r: Option<seq<Id>>)
    ensures r.None? <==> x !in xs
    ensures r.Some? ==> |r.value| == |xs| - 1 && multiset(r.value) == multiset(xs) - multiset{x}
    ensures r.Some? ==> CutsFirst(xs, x, r.value)
  {
    RemoveFirstMultiset(xs, x);
    if x in xs then
      RemoveFirstCutsFirstOccurrence(xs, x);
      Some(RemoveFirst(xs, x))
    else None
  }

  /** `Entry.add_tag`: refuses a tag already on the list, else appends it. */
  function AddTag(tags: seq<Id>, t: Id): (r: (bool, seq<Id>))
    ensures r.0 <==> t !in tags
    ensures !r.0 ==> r.1 == tags
    ensures t in r.1
    ensures r.0 ==> |r.1| == |tags| + 1 && r.1[..|tags|] == tags
  {
    if t in tags then (false, tags) else (true, tags + [t])
  }

  /** `Entry.remove_tag`: refuses a tag not on the list, else removes its
      first occurrence. */
  function RemoveTag(tags: seq<Id>, t: Id): (r: (bool, seq<Id>))
    ensures r.0 <==> t in tags
    ensures !r.0 ==> r.1 == tags
    ensures r.0 ==> |r.1| == |tags| - 1
    ensures multiset(r.1) == multiset(tags) - multiset{t}
    ensures r.0 ==> CutsFirst(tags, t, r.1)
  {
    match ListRemove(tags, t)
    case None => (false, tags)
    case Some(rest) => (true, rest)
  }

  /** Removing an element absent from a prefix leaves that prefix alone. */
  lemma {:induction false} RemoveFirstPastPrefix(xs: seq<Id>, ys: seq<Id>, x: Id)
    requires x !in xs
    ensures RemoveFirst(xs + ys, x) == xs + RemoveFirst(ys, x)
    decreases |xs|
  {
    if xs == [] {
      assert xs + ys == ys;
    } else {
      var zs := xs + ys;
      assert zs[0] == xs[0] != x;
      assert zs[1..] == xs[1..] + ys;
      RemoveFirstPastPrefix(xs[1..], ys, x);
      var rest := RemoveFirst(ys, x);
      assert RemoveFirst(zs, x) == [xs[0]] + (xs[1..] + rest);
      assert [xs[0]] + (xs[1..] + rest) == ([xs[0]] + xs[1..]) + rest;
      assert [xs[0]] + xs[1..] == xs;
    }
  }

  /** Appending a tag and then removing it again gives back the original list. */
  lemma RemoveFirstAfterAppend(xs: seq<Id>, x: Id)
    requires x !in xs
    ensures RemoveFirst(xs + [x], x) == xs
  {
    RemoveFirstPastPrefix(xs, [x], x);
  }

  /** A successful `add_tag` is undone by `remove_tag`. */
  lemma AddThenRemoveRestores(tags: seq<Id>, t: Id)
    requires AddTag(tags, t).0
    ensures RemoveTag(AddTag(tags, t).1, t) == (true, tags)
  {
    RemoveFirstAfterAppend(tags, t);
  }

  /** Used alone, `add_tag` never puts a tag on a list twice. */
  lemma AddTagKeepsNoDuplicates(tags: seq<Id>, t: Id)
    requires NoDuplicates(tags)
    ensures NoDuplicates(AddTag(tags, t).1)
  {
    var r := AddTag(tags, t).1;
    if t !in tags {
      forall a, b | 0 <= a < b < |r|
        ensures r[a] != r[b]
      {
        if b == |tags| {
          assert r[a] == tags[a];
        }
      }
    }
  }

  /** A tag on a list without repetitions occurs exactly once. */
  lemma NoDuplicatesOccursOnce(tags: seq<Id>, t: Id)
    requires NoDuplicates(tags) && t in tags
    ensures multiset(tags)[t] == 1
  {
    var i :| 0 <= i < |tags| && tags[i] == t;
    assert tags == tags[..i] + [t] + tags[i + 1..];
    assert t !in tags[..i] && t !in tags[i + 1..] by {
      forall k | 0 <= k < |tags| && k != i
        ensures tags[k] != t
      {
      }
    }
    assert multiset(tags) == multiset(tags[..i]) + multiset{t} + multiset(tags[i + 1..]);
  }

  /** On a list without repetitions a successful `remove_tag` removes the tag entirely. */
  lemma RemoveTagClearsTag(tags: seq<Id>, t: Id)
    requires NoDuplicates(tags) && t in tags
    ensures t !in RemoveTag(tags, t).1
  {
    NoDuplicatesOccursOnce(tags, t);
  }

  /** Cutting out the element at index `i` shifts every later element down by one. */
  lemma CutShifts(xs: seq<Id>, i: nat, k: nat)
    requires i < |xs| && k < |xs| - 1
    ensures (xs[..i] + xs[i + 1..])[k] == xs[if k < i then k else k + 1]
  {
    if k < i {
      assert (xs[..i] + xs[i + 1..])[k] == xs[..i][k];
    } else {
      assert (xs[..i] + xs[i + 1..])[k] == xs[i + 1..][k - i];
    }
  }

  /** Cutting out one element keeps a list free of repetitions. */
  lemma CutKeepsNoDuplicates(xs: seq<Id>, i: nat)
    requires i < |xs| && NoDuplicates(xs)
    ensures NoDuplicates(xs[..i] + xs[i + 1..])
  {
    var r := xs[..i] + xs[i + 1..];
    forall a, b | 0 <= a < b < |r|
      ensures r[a] != r[b]
    {
      CutShifts(xs, i, a);
      CutShifts(xs, i, b);
    }
  }

  /** Removing one element keeps a list free of repetitions. */
  lemma RemoveTagKeepsNoDuplicates(tags: seq<Id>, t: Id)
    requires NoDuplicates(tags)
    ensures NoDuplicates(RemoveTag(tags, t).1)
  {
    if t in tags {
      RemoveFirstCutsFirstOccurrence(tags, t);
      CutKeepsNoDuplicates(tags, IndexOf(tags, t));
      assert RemoveTag(tags, t).1 == RemoveFirst(tags, t);
    }
  }
}

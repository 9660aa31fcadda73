/** Symmetric difference of two lists of index pairs, used to pick the two
    hull edges that bound a pair of mutually overlapping offset vertices. */
module SymmetricDifference {
  import opened LinePoints

  /** Every pair put in ascending order (numpy's sort along the last axis,
      which sorts within each pair and keeps the order of the list). */
  function SortEach(list: seq<IndexPair>): (r: seq<IndexPair>)
    ensures |r| == |list|
    ensures forall i :: 0 <= i < |r| ==> r[i].0 <= r[i].1
    ensures forall i :: 0 <= i < |r| ==> r[i] == list[i] || r[i] == (list[i].1, list[i].0)
  {
    seq(|list|, i requires 0 <= i < |list| => SortPair(list[i].0, list[i].1))
  }

  /** The elements of xs that do not occur in ys, in the order of xs. */
  function Missing(xs: seq<IndexPair>, ys: seq<IndexPair>): seq<IndexPair>
  {
    if xs == [] then []
    else Missing(xs[..|xs| - 1], ys) + (if xs[|xs| - 1] in ys then [] else [xs[|xs| - 1]])
  }

  lemma {:induction false} MissingMembers(xs: seq<IndexPair>, ys: seq<IndexPair>)
    ensures forall x :: x in Missing(xs, ys) <==> x in xs && x !in ys
  {
    if xs != [] {
      var init := xs[..|xs| - 1];
      MissingMembers(init, ys);
      assert xs == init + [xs[|xs| - 1]];
    }
  }

  /** Nothing is missing when every element of xs occurs in ys. */
  lemma {:induction false} MissingNone(xs: seq<IndexPair>, ys: seq<IndexPair>)
    requires forall i :: 0 <= i < |xs| ==> xs[i] in ys
    ensures Missing(xs, ys) == []
  {
    if xs != [] {
      MissingNone(xs[..|xs| - 1], ys);
    }
  }

  /** What the source returns: the sorted pairs of a missing from b, then
      those of b missing from a. */
  function SymDiff(a: seq<IndexPair>, b: seq<IndexPair>): seq<IndexPair>
  {
    Missing(SortEach(a), SortEach(b)) + Missing(SortEach(b), SortEach(a))
  }

  /** A pair is in the result exactly when it occurs (after sorting) in one
      list and not in the other; every pair in the result is ascending. */
  lemma {:induction false} SymDiffMembers(a: seq<IndexPair>, b: seq<IndexPair>)
    ensures forall x :: x in SymDiff(a, b) <==> (x in SortEach(a) <==> x !in SortEach(b))
    ensures forall x :: x in SymDiff(a, b) ==> x.0 <= x.1
  {
    MissingMembers(SortEach(a), SortEach(b));
    MissingMembers(SortEach(b), SortEach(a));
  }

  /** A list has no difference from itself. */
  lemma {:induction false} SymDiffSelf(a: seq<IndexPair>)
    ensures SymDiff(a, a) == []
  {
    MissingNone(SortEach(a), SortEach(a));
  }

  /** Swapping the arguments swaps the two halves, so the same pairs come out. */
  lemma {:induction false} SymDiffSwap(a: seq<IndexPair>, b: seq<IndexPair>)
    ensures multiset(SymDiff(a, b)) == multiset(SymDiff(b, a))
  {
  }

  /** Loops over both sorted lists, appending each pair that finds no match. */
  method SymmetricDifference(listA: seq<IndexPair>, listB: seq<IndexPair>) returns (symDiff: seq<IndexPair>)
    ensures symDiff == SymDiff(listA, listB)
  {
    symDiff := [];
    var sortedA := SortEach(listA);
    var sortedB := SortEach(listB);
    // add elements in list a if not in list b
    for x := 0 to |sortedA|
      invariant symDiff == Missing(sortedA[..x], sortedB)
    {
      var found := false;
      for y := 0 to |sortedB|
        invariant found <==> sortedA[x] in sortedB[..y]
      {
        if sortedA[x] == sortedB[y] {
          found := true;
        }
      }
      assert sortedB[..|sortedB|] == sortedB;
      assert sortedA[..x + 1][..x] == sortedA[..x];
      if !found {
        symDiff := symDiff + [sortedA[x]];
      }
    }
    assert sortedA[..|sortedA|] == sortedA;
    ghost var firstHalf := symDiff;
    // add elements in list b if not in list a
    for y := 0 to |sortedB|
      invariant symDiff == firstHalf + Missing(sortedB[..y], sortedA)
    {
      var found := false;
      for x := 0 to |sortedA|
        invariant found <==> sortedB[y] in sortedA[..x]
      {
        if sortedA[x] == sortedB[y] {
          found := true;
        }
      }
      assert sortedA[..|sortedA|] == sortedA;
      assert sortedB[..y + 1][..y] == sortedB[..y];
      if !found {
        symDiff := symDiff + [sortedB[y]];
      }
    }
    assert sortedB[..|sortedB|] == sortedB;
  }
}

/** Day 1: two location-id lists compared by rank (part 1) and by a
    similarity score (part 2). The lists arrive already parsed. */
module Day01Lists {
  import opened Common

  predicate Sorted(s: seq<int>)
  {
    forall i, j :: 0 <= i < j < |s| ==> s[i] <= s[j]
  }

  /** Puts `x` into the sorted sequence `s` in front of the first larger element. */
  function Insert(x: int, s: seq<int>): (r: seq<int>)
    requires Sorted(s)
    ensures Sorted(r)
    ensures multiset(r) == multiset(s) + multiset{x}
  {
    if |s| == 0 then [x]
    else if x <= s[0] then [x] + s
    else
      var tail := Insert(x, s[1..]);
      assert s == [s[0]] + s[1..];
      assert multiset(s) == multiset{s[0]} + multiset(s[1..]);
      ConsSorted(s[0], tail);
      [s[0]] + tail
  }

  /** A head no larger than anything a sorted tail holds keeps it sorted. */
  lemma ConsSorted(h: int, t: seq<int>)
    requires Sorted(t)
    requires forall y :: y in multiset(t) ==> h <= y
    ensures Sorted([h] + t)
  {
    forall k | 0 <= k < |t|
      ensures h <= t[k]
    {
      assert t[k] in multiset(t);
    }
  }

  /** The ascending sort the program applies with `sort()`. */
  function Sort(s: seq<int>): (r: seq<int>)
    ensures Sorted(r)
    ensures multiset(r) == multiset(s)
    ensures |r| == |s|
  {
    if |s| == 0 then []
    else
      assert s == [s[0]] + s[1..];
      Insert(s[0], Sort(s[1..]))
  }

  /** A sorted arrangement of a multiset is unique. */
  lemma {:induction false} SortedUnique(a: seq<int>, b: seq<int>)
    requires Sorted(a) && Sorted(b)
    requires multiset(a) == multiset(b)
    ensures a == b
    decreases |a|
  {
    assert |a| == |multiset(a)| == |multiset(b)| == |b|;
    if |a| > 0 {
      assert a[0] == b[0] by {
        assert a[0] in multiset(b);
        assert b[0] in multiset(a);
        var i :| 0 <= i < |b| && b[i] == a[0];
        var j :| 0 <= j < |a| && a[j] == b[0];
        assert b[0] <= b[i];
        assert a[0] <= a[j];
      }
      assert a == [a[0]] + a[1..];
      assert b == [b[0]] + b[1..];
      assert multiset(a[1..]) == multiset(a) - multiset{a[0]} by {
        assert multiset(a) == multiset{a[0]} + multiset(a[1..]);
      }
      assert multiset(b[1..]) == multiset(b) - multiset{b[0]} by {
        assert multiset(b) == multiset{b[0]} + multiset(b[1..]);
      }
      SortedUnique(a[1..], b[1..]);
    }
  }

  /** A sequence is sorted when each element is at most the next one. */
  lemma {:induction false} SortedSteps(s: seq<int>)
    requires forall i :: 0 <= i < |s| - 1 ==> s[i] <= s[i + 1]
    ensures Sorted(s)
  {
    if |s| > 1 {
      var t := s[1..];
      SortedSteps(t);
      forall i, j | 0 <= i < j < |s|
        ensures s[i] <= s[j]
      {
        if i > 0 {
          assert t[i - 1] <= t[j - 1];
        } else if j > 1 {
          assert t[0] <= t[j - 1];
        }
      }
    }
  }

  /** `Sort` returns the one sorted arrangement of its input. */
  lemma SortIsUnique(s: seq<int>, t: seq<int>)
    requires Sorted(t) && multiset(s) == multiset(t)
    ensures Sort(s) == t
  {
    SortedUnique(Sort(s), t);
  }

  /** Pairwise absolute differences of two equally long sequences. */
  function Distances(a: seq<int>, b: seq<int>): (r: seq<int>)
    requires |a| == |b|
    ensures |r| == |a|
    ensures forall i :: 0 <= i < |a| ==> r[i] == AbsDiff(a[i], b[i])
  {
    if |a| == 0 then [] else Distances(a[..|a| - 1], b[..|b| - 1]) + [AbsDiff(a[|a| - 1], b[|b| - 1])]
  }

  /** Part 1: total distance between the lists after sorting both and
      pairing them by rank; `None` where the program's length assertion fails. */
  function TotalDistance(list1: seq<int>, list2: seq<int>): (r: Option<int>)
    ensures r.Some? <==> |list1| == |list2|
    ensures r.Some? ==> r.value >= 0
  {
    if |list1| != |list2| then None
    else
      var d := Distances(Sort(list1), Sort(list2));
      SumNonNegative(d);
      Some(Sum(d))
  }

  /** Two lists holding the same ids, in whatever order, are at distance 0. */
  lemma SameIdsNoDistance(a: seq<int>, b: seq<int>)
    requires multiset(a) == multiset(b)
    ensures TotalDistance(a, b) == Some(0)
  {
    assert |a| == |multiset(a)| == |b|;
    SortedUnique(Sort(a), Sort(b));
    SumNonNegative(Distances(Sort(a), Sort(b)));
  }

  /** Part 1 only depends on the contents of the lists, not on their order. */
  lemma TotalDistancePermutation(a: seq<int>, b: seq<int>, a': seq<int>, b': seq<int>)
    requires multiset(a) == multiset(a') && multiset(b) == multiset(b')
    ensures TotalDistance(a, b) == TotalDistance(a', b')
    ensures TotalDistance(a, b).Some? <==> |a| == |b|
  {
    assert |a| == |multiset(a)| == |a'|;
    assert |b| == |multiset(b)| == |b'|;
    SortedUnique(Sort(a), Sort(a'));
    SortedUnique(Sort(b), Sort(b'));
  }

  /** Number of occurrences of `x` in `s`, as the program's filter-count finds them. */
  function Occurrences(x: int, s: seq<int>): nat
  {
    if |s| == 0 then 0
    else Occurrences(x, s[..|s| - 1]) + (if s[|s| - 1] == x then 1 else 0)
  }

  /** The filter-count agrees with the multiplicity in the multiset of the list. */
  lemma {:induction false} OccurrencesMultiplicity(x: int, s: seq<int>)
    ensures Occurrences(x, s) == multiset(s)[x]
  {
    if |s| > 0 {
      OccurrencesMultiplicity(x, s[..|s| - 1]);
      assert s == s[..|s| - 1] + [s[|s| - 1]];
    }
  }

  /** Each left-list id weighted by how often it occurs in the right list. */
  function Weights(list1: seq<int>, list2: seq<int>): (r: seq<int>)
    ensures |r| == |list1|
    ensures forall i :: 0 <= i < |list1| ==> r[i] == list1[i] * multiset(list2)[list1[i]]
  {
    if |list1| == 0 then []
    else
      OccurrencesMultiplicity(list1[|list1| - 1], list2);
      Weights(list1[..|list1| - 1], list2) + [list1[|list1| - 1] * Occurrences(list1[|list1| - 1], list2)]
  }

  /** Part 2: similarity score; `None` where the length assertion fails. */
  function SimilarityScore(list1: seq<int>, list2: seq<int>): (r: Option<int>)
    ensures r.Some? <==> |list1| == |list2|
    ensures r.Some? && (forall i :: 0 <= i < |list1| ==> list1[i] >= 0) ==> r.value >= 0
    ensures r.Some? && (forall i :: 0 <= i < |list1| ==> list1[i] !in list2) ==> r.value == 0
  {
    if |list1| != |list2| then None
    else
      var w := Weights(list1, list2);
      SumNonNegative(w);
      Some(Sum(w))
  }

  /** Part 2 does not depend on the order of the right list. */
  lemma SimilarityScoreRightPermutation(a: seq<int>, b: seq<int>, b': seq<int>)
    requires multiset(b) == multiset(b')
    ensures SimilarityScore(a, b) == SimilarityScore(a, b')
  {
    assert |b| == |multiset(b)| == |b'|;
    assert Weights(a, b) == Weights(a, b');
  }

  /** Sorting the example's left list ... */
  lemma ExampleLeftMultiset()
    ensures multiset([3, 4, 2, 1, 3, 3]) == multiset([1, 2, 3, 3, 3, 4])
  {
    assert multiset([1, 2, 3, 3, 3, 4]) == multiset{1, 2, 3, 3, 3, 4} == multiset{3, 4, 2, 1, 3, 3};
  }

  lemma ExampleRightMultiset()
    ensures multiset([4, 3, 5, 3, 9, 3]) == multiset([3, 3, 3, 4, 5, 9])
  {
    assert multiset([3, 3, 3, 4, 5, 9]) == multiset{3, 3, 3, 4, 5, 9} == multiset{4, 3, 5, 3, 9, 3};
  }

  lemma ExampleSortedLeft()
    ensures Sort([3, 4, 2, 1, 3, 3]) == [1, 2, 3, 3, 3, 4]
  {
    ExampleLeftMultiset();
    SortedSteps([1, 2, 3, 3, 3, 4]);
    SortIsUnique([3, 4, 2, 1, 3, 3], [1, 2, 3, 3, 3, 4]);
  }

  /** ... and its right list. */
  lemma ExampleSortedRight()
    ensures Sort([4, 3, 5, 3, 9, 3]) == [3, 3, 3, 4, 5, 9]
  {
    ExampleRightMultiset();
    SortedSteps([3, 3, 3, 4, 5, 9]);
    SortIsUnique([4, 3, 5, 3, 9, 3], [3, 3, 3, 4, 5, 9]);
  }

  /** The example lists give a total distance of 11 ... */
  lemma ExampleTotalDistance(a: seq<int>, b: seq<int>)
    requires a == [3, 4, 2, 1, 3, 3] && b == [4, 3, 5, 3, 9, 3]
    ensures TotalDistance(a, b) == Some(11)
  {
    ExampleSortedLeft();
    ExampleSortedRight();
    ExampleDistances([1, 2, 3, 3, 3, 4], [3, 3, 3, 4, 5, 9]);
  }

  lemma ExampleDistances(sa: seq<int>, sb: seq<int>)
    requires sa == [1, 2, 3, 3, 3, 4] && sb == [3, 3, 3, 4, 5, 9]
    ensures Sum(Distances(sa, sb)) == 11
  {
    var d := Distances(sa, sb);
    assert d[0] == 2 && d[1] == 1 && d[2] == 0 && d[3] == 1 && d[4] == 2 && d[5] == 5;
    assert d == [2, 1, 0, 1, 2, 5];
    assert [2, 1][..1] == [2];
    assert [2, 1, 0][..2] == [2, 1];
    assert [2, 1, 0, 1][..3] == [2, 1, 0];
    assert [2, 1, 0, 1, 2][..4] == [2, 1, 0, 1];
    assert [2, 1, 0, 1, 2, 5][..5] == [2, 1, 0, 1, 2];
  }

  /** ... and a similarity score of 31. */
  lemma ExampleSimilarityScore()
    ensures SimilarityScore([3, 4, 2, 1, 3, 3], [4, 3, 5, 3, 9, 3]) == Some(31)
  {
    ExampleWeights([3, 4, 2, 1, 3, 3], [4, 3, 5, 3, 9, 3]);
    assert [9, 4][..1] == [9];
    assert [9, 4, 0][..2] == [9, 4];
    assert [9, 4, 0, 0][..3] == [9, 4, 0];
    assert [9, 4, 0, 0, 9][..4] == [9, 4, 0, 0];
    assert [9, 4, 0, 0, 9, 9][..5] == [9, 4, 0, 0, 9];
    assert Sum([9, 4, 0, 0, 9, 9]) == 31;
  }

  lemma ExampleWeights(a: seq<int>, b: seq<int>)
    requires a == [3, 4, 2, 1, 3, 3] && b == [4, 3, 5, 3, 9, 3]
    ensures Weights(a, b) == [9, 4, 0, 0, 9, 9]
  {
    var m := multiset(b);
    assert m[3] == 3 && m[4] == 1 && m[2] == 0 && m[1] == 0;
    var w := Weights(a, b);
    assert w[0] == 9 && w[1] == 4 && w[2] == 0 && w[3] == 0 && w[4] == 9 && w[5] == 9;
  }
}
